# htmpl evaluation core, modelled in Dafny

htmpl evaluates an HTML template that contains two custom elements:

- `<htmpl-query name="q">SELECT …</htmpl-query>` runs a read-only SQL query and binds its rows to `q`.
- `<htmpl-insert query="q" column="c">` is replaced by one value of such a result, rendered as text.

This project models the evaluation core over an abstract tree. The database is treated as an opaque function.

- **Errors** (`errors.dfy`, src/lib.rs): the `Error` enum, its hand-written `PartialEq`, the element-tag setter used by `do_query`, and `From<Error> for Result`.
- **Values** (`values.dfy`, src/visit.rs `format_value`): the `rusqlite` value type and its text rendering. Each rendering is paired with a parser that reads the value back: decimal integers, and blobs as `[` + `{:2x}` bytes joined by `", "` + `]`.
- **Queries** (`queries.dfy`, src/queries.rs): `Scope` (query bindings plus per-node attribute patches), `parse_specifier`, `get`/`get_single`, `for_each_row` with its `RowIterator`, `add_attr`/`get_attrs`, and the binding and parameter logic of `do_query`.
- **Visitor** (`visit.dfy`, src/visit.rs): `visit_recurse`/`visit_element`/`visit_insert` as pure functions. The evaluation context (`Queries`) is a stack of scopes threaded as a value. `htmpl-query` emits nothing. `htmpl-insert` emits one text node and never visits its children. Every other element is copied, and its children are visited between `push_scope` and `pop_scope`.
- **VisitLaws** (`visit_laws.dfy`) proves properties of the visitor:
  - the identity law for templates with no htmpl elements;
  - left-to-right, fail-fast sequencing of children;
  - shadow/restore for siblings;
  - agreement between `visit_insert` and `get_single`.
- **Scenarios** (`scenarios.dfy`): the nested-shadowing and missing-query tests of src/tests.rs, evaluated on a small stand-in database.
- `wrappers.dfy`, `strings.dfy`, `dom.dfy`: `Option`/`Result`, the `str` operations the core uses (`split_once` on one character, `join`, `trim`), and the tree datatype.

Some of the code's behaviour is easy to misread. The model follows the code in each case:

- `parse_specifier` splits at the first `(` and then at the first `)` after it, and rejects anything that follows. So `a(b)c)` is rejected; a split at the last `)` would accept it.
- `visit_recurse` does not open a scope for non-element nodes such as the document root. Only ordinary elements push and pop.
- The module comment at src/queries.rs:24-33 says an inner redeclaration stays visible after the enclosing `</div>`. The code pops the inner scope (src/visit.rs:52-56), and the model proves the restore.
- `visit_insert` takes a plain query name in `query` and the column in a separate `column` attribute. It does not take a `q(col)` specifier.
- Ordinary elements are copied with exactly their own attributes. src/visit.rs never applies attribute patches registered with `add_attr`.

## Model

| member | source | states |
|---|---|---|
| Errors.ErrorEq | src/lib.rs:28-50 | Two errors are equal exactly when they are the same variant with every field equal (e.g. `Cardinality` needs element, name, got and want to match, and `MissingQuery("htmpl-insert","q")` differs from `MissingQuery("","q")`); errors of different variants are never equal |
| Errors.SetElement | src/queries.rs:210 | Tagging an error with an element keeps its variant and all other fields, fills in the tag when none was recorded, and never overwrites a recorded tag |
| Errors.IntoResult | src/lib.rs:52-56 | Converting an error into a result gives a failure carrying an equal error |
| Values.FormatInteger | src/visit.rs:118 | The decimal rendering of an integer reads back as the same integer and starts with `-` exactly for negative integers |
| Values.DigitsValueOfDigits | src/visit.rs:118 | The digits written for a natural number denote that number |
| Values.DigitsOfDigitsValue | src/visit.rs:118 | A digit string without a superfluous leading zero is exactly the rendering of the number it denotes |
| Values.IntegerTextIsCanonical | src/visit.rs:118 | Any text that reads back as an integer is that integer's rendering: no leading zeros, no `+`, no `-0`, so the rendering is fixed character by character |
| Values.HexByte | src/visit.rs:124 | `{:2x}` gives two characters, with a leading space exactly for bytes below 16, that read back as the byte |
| Values.BlobBodyRoundTrip | src/visit.rs:121-127 | The `", "`-joined byte renderings read back as the original bytes |
| Values.JoinedHexList | src/visit.rs:123-126 | Any list of two-character byte renderings, joined with `", "`, reads back as exactly those bytes in order |
| Values.BlobBodyLength | src/visit.rs:121-127 | The `", "`-joined byte renderings are empty for no bytes and have length 4n-2 for n > 0 bytes |
| Values.HexByteCanonical | src/visit.rs:124 | Any two characters that read back as a byte are exactly that byte's `{:2x}` rendering |
| Values.HexListCanonical | src/visit.rs:123-126 | Any text that reads back as a byte list is exactly the `", "`-joined renderings of those bytes |
| Values.FormatBlob | src/visit.rs:121-127 | A blob renders as `[…]` that reads back as the same bytes, 2 characters for no bytes and 4n otherwise |
| Values.BlobTextIsCanonical | src/visit.rs:121-127 | Any text that reads back as a blob is that blob's rendering, so the rendering is fixed character by character |
| Values.FormatValue | src/visit.rs:115-129 | `Null` gives "null", text is verbatim, integers render to their canonical decimal text (`-` exactly when negative), blobs to `[…]` text that reads back as the bytes, reals use the supplied float rendering |
| Strings.Trim | src/queries.rs:186 | `str::trim`: the result is a slice of the input that starts after the maximal run of leading White_Space characters and is followed only by White_Space; it neither starts nor ends with White_Space |
| Dom.TextContent | src/queries.rs:182-183 | `text()` of a text node is its own text; a comment contributes nothing |
| Dom.TextContentSeqAppend | src/queries.rs:182-183 | The text of consecutive siblings is the text of the first ones followed by the text of the rest, in document order |
| Dom.TextContentNonEmpty | src/queries.rs:182-183 | A node yields at least one text piece exactly when a text node lies inside it (or is it) |
| Queries.QueryText | src/queries.rs:182-187 | The statement text is the element's text pieces joined with one space, with exactly the leading and trailing White_Space removed and nothing else changed |
| Queries.NewScope | src/queries.rs:70-76 | A new scope has no bindings and no patches for any node |
| Queries.Push | src/queries.rs:79-81 | A pushed scope is a copy: same bindings and same patches |
| Queries.GetAttrs | src/queries.rs:102-104 | The patches of a node are its registered list, or empty when none was registered |
| Queries.AddAttr | src/queries.rs:96-99 | Adding a patch appends it to the end of that node's list, leaves every other node's list and all bindings unchanged |
| Queries.PatchesAreLogged | src/queries.rs:96-104 | From a new scope, after any sequence of `add_attr` calls, `get_attrs` of a node is exactly the patches registered for it, in registration order (empty if none) |
| Queries.ParseSpecifier | src/queries.rs:107-119 | A string with no `(` parses to itself with no column (even if empty or containing `)`); a parsed column specifier has a non-empty name without `(`, a non-empty column without `)`, and reassembles to the input; every failure is `InvalidParameter` carrying the input |
| Queries.SpecifierRoundTrip | src/queries.rs:110-118 | Every well-formed `name(column)` parses back to exactly that name and column |
| Queries.SpecifierUnclosed | src/queries.rs:114 | A `(` with no `)` after it is rejected with `InvalidParameter` |
| Queries.SpecifierMalformed | src/queries.rs:115-117 | An empty name, an empty column, or anything after the first `)` is rejected with `InvalidParameter` |
| Queries.Get | src/queries.rs:122-128 | Lookup succeeds exactly for bound names, with their rows, and otherwise fails with `MissingQuery` for that name |
| Queries.SoleValue | src/queries.rs:158-160 | The value taken from a one-column row is the only value in it |
| Queries.Select | src/queries.rs:136-165 | Unbound name: `MissingQuery`; row count n ≠ 1: `Cardinality(name, n, 1)` before any column lookup; a named column gives that column's value or `MissingColumn` carrying the wanted column; no column succeeds iff the row has exactly one column and gives its value, else `NoDefaultColumn`; errors carry no element tag |
| Queries.GetSingle | src/queries.rs:134-166 | A specifier that does not parse fails with `InvalidParameter`; otherwise the result is the selection of the parsed name and column in the scope |
| Queries.CardinalityLaw | src/queries.rs:137-140 | A binding whose row count is not 1 fails with the same `Cardinality` error whether or not the specifier names a column |
| Queries.ForEachRow | src/queries.rs:83-94 | Row iteration is absent exactly when the name is unbound, and otherwise starts at row 0 over that name's rows with the unchanged scope as parent |
| Queries.Next | src/queries.rs:237-244 | The iterator yields a scope exactly while rows remain; it yields the parent scope with the name narrowed to the current row and advances by one |
| Queries.Drain | src/queries.rs:234-245 | An iterator at position i yields exactly the remaining rows' scopes, the k-th being the parent with the name narrowed to row i+k |
| Queries.ForEachRowYieldsEveryRow | src/queries.rs:83-94 | `for_each_row(name)` yields exactly one scope per row, in row order, each equal to the parent scope with only the name rebound, to a one-row list holding that row; patches and all other bindings are unchanged |
| Queries.ParamValue | src/queries.rs:202-207 | A parameter with no same-named attribute fails with `MissingParameter`; otherwise the attribute is resolved as a specifier |
| Queries.CollectFacts | src/queries.rs:200-209 | Collecting per-name lookups into one `Result` succeeds exactly when no lookup fails, pairing every name with its value in order, and otherwise returns the error of the first failing lookup |
| Queries.FirstErrIsFirst | src/queries.rs:200-209 | The stopping position of the collection is the first name whose lookup fails (every earlier lookup succeeds), or the number of names |
| Queries.FirstFailing | src/queries.rs:200-209 | The index returned is that of the first parameter that does not resolve (every earlier one resolves), or the count of parameters when all resolve |
| Queries.ResolveParameters | src/queries.rs:197-210 | Resolution succeeds iff every parameter resolves, giving name/value pairs in order; on failure the error is that of the first parameter that fails (the `FirstFailing` index), with no element tag yet |
| Queries.DoQuery | src/queries.rs:177-222 | Missing `name` gives `MissingAttr("htmpl-query","name")`; a prepare or execute failure gives `Sql(name, …)`; a parameter failure gives exactly the first failing parameter's error with its element set to `htmpl-query`; parameters are resolved in the scope before the binding; on success only the `name` binding changes, to the executor's rows |
| Visitor.NewStack | src/visit.rs:148 | Evaluation starts with one scope holding no bindings and no saved scopes |
| Visitor.PushScope | src/visit.rs:52-56 | Pushing keeps the current scope's content, saves one more scope, and popping afterwards restores the context exactly |
| Visitor.PopScope | src/visit.rs:56 | Popping makes the most recently saved scope current again and drops it from the saved scopes, leaving the older ones as they were |
| Visitor.Lookup | src/visit.rs:69-71 | A query name is found exactly when bound in the current scope, with its rows |
| Visitor.VisitInsert | src/visit.rs:64-113 | No `query` attribute: `MissingAttr("htmpl-insert","query")`; unbound: `MissingQuery("htmpl-insert", q)`; row count n ≠ 1: `Cardinality("htmpl-insert", q, n, 1)`; a `column` absent from the row: `MissingColumn`; without `column`, success iff the row has exactly one column; otherwise the formatted selected value |
| Visitor.Visit | src/visit.rs:19-60 | Only the current scope can change. An ordinary element yields one element with the same tag and attributes and leaves the context unchanged; an insert yields exactly one text node holding what `visit_insert` renders, or fails with `visit_insert`'s error; a query yields nothing and makes the scope `do_query` returns current, or fails with `do_query`'s error; text and comments are copied with the context unchanged; the document root visits its children in the context itself, with no scope pushed, keeps the context they leave (so a top-level query stays visible to later top-level nodes) and wraps their output in a copied root, or fails with their first error |
| Visitor.VisitSeq | src/visit.rs:28-30 | Visiting a list of children never changes the saved scopes |
| VisitLaws.IdentityLaw | src/visit.rs:24-58 | A tree with no `htmpl-insert`/`htmpl-query` element evaluates to itself, node for node, and leaves the context unchanged |
| VisitLaws.IdentityLawSeq | src/visit.rs:28-30 | A list of such trees evaluates to itself |
| VisitLaws.OrdinaryElement | src/visit.rs:49-58 | An ordinary element's children are visited in a pushed scope, the element is copied with the same tag and attributes around their output, and the context afterwards is the one before |
| VisitLaws.VisitSeqCons | src/visit.rs:53-55 | The one-child case of `VisitSeqAppend`: after a first child succeeds, the remaining children are visited in the context it left, their output after its output |
| VisitLaws.VisitSeqAppend | src/visit.rs:28-31 | Visiting `a + b` is visiting `a` and then `b`; the first error in `a` aborts before `b` |
| VisitLaws.SiblingsSeeEnclosingScope | src/visit.rs:49-58 | Whatever an ordinary element binds inside itself, its later siblings are visited in the context it was entered with |
| VisitLaws.InsertAgreesWithSelect | src/visit.rs:64-113 | For any element with a `query` attribute, the insert gives what selecting that query's `column` attribute (or its sole column when there is none) gives, formatted, with errors tagged `htmpl-insert` |
| VisitLaws.InsertIgnoresChildren | src/visit.rs:41-47 | An insert element's children never affect its evaluation |
| VisitLaws.InsertAgreesWithGetSingle | src/visit.rs:64-113 | When the `query` value contains no `(` and, if `column` is present, `query(column)` is a valid specifier: `query="q" column="c"` selects what the specifier `q(c)` selects (and `query="q"` what `q` selects), formatted, with errors tagged `htmpl-insert` |
| Scenarios.ShadowInnerScope | src/tests.rs:153-179 | With `q` declared in an outer and an inner `div`, the inner insert shows the inner row and the insert after the inner `div` shows the outer row |
| Scenarios.MissingQueryScenario | src/tests.rs:68-77 | Inserting an undeclared query fails with `MissingQuery("htmpl-insert","q")`, which differs from the untagged error |

## Left out

- `evaluate_template` (src/visit.rs:132-175) is not modelled. It covers HTML parsing, serialization, stripping the synthetic `<html>` wrapper and the final `panic!`, all of which are foreign-library I/O. The model starts from an already-parsed tree. `Document` stands for the parser's document or fragment root. Doctypes and processing instructions behave like `Comment`: childless nodes copied as they are.
- SQL is not modelled: statement preparation, column and parameter introspection, execution and `row_to_hash`. `Database` supplies `prepare` (the statement and its named parameters) and `execute` (rows as column→value maps) as opaque functions. The model keeps the order in which `do_query` consults them.
- Floating-point `Display` for `Value::Real` is a supplied function (`Host.showReal`). Floating point is outside the model.
- Queries.FmtColumns: the text of the column listing in `MissingColumn`/`NoDefaultColumn` depends on `HashMap` iteration order, which depends on a random hash seed. That order is a supplied function (`ColumnOrder`), and nothing is proved about the listing's content.
- `htmpl-foreach`, `htmpl-if` and `htmpl-attr` are not modelled. The tests exercise them, but the visitor in src/visit.rs has no dispatch arm for them. Truthiness is left out for the same reason. Only the scope-level `for_each_row` and `add_attr`/`get_attrs` are modelled.
- The `Queries` context type (imported at src/visit.rs:3, with `push_scope`, `pop_scope`, `get` and `do_query` on it) is defined in neither src/queries.rs nor src/lib.rs. It is modelled as a stack of scope copies with lookups in the innermost one. `PopScope` requires a saved scope; the visitor pops only after pushing.
- Errors.SetElement: the body of `set_element` is defined in neither src/queries.rs nor src/lib.rs. The model fills in a missing tag and keeps an existing one. In `do_query` every incoming error is untagged, so overwriting would give the same result there.
- Errors.ErrorEq: the `rusqlite::Error` inside `Sql` is opaque here and compared structurally. rusqlite's own hand-written comparison returns false for some causes (conversion failures, for example) even against themselves; the model does not reproduce that.
- Errors.ErrorEq: `InvalidParameter` and `MissingParameter` are used in src/queries.rs but are absent from the `Error` enum and its `PartialEq` in src/lib.rs. The model compares them field by field, like the other variants.
- The scope left open when a child of an ordinary element fails (the `?` skips `pop_scope`) is not modelled. Any error aborts the whole evaluation, so that context is never used.
- `Rc` sharing, lifetimes and the connection reference held by `Scope` are not modelled. Value semantics gives the same observable behaviour.
- `usize` counts are not modelled as fixed-width: row counts in `Cardinality` are `nat`. They are lengths of in-memory vectors, so they cannot wrap.
- The test fixtures (`make_test_db`, `html_equal`, src/lib.rs:58-89) are not modelled.
