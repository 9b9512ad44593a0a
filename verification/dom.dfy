/** The parsed markup tree the evaluator walks, reduced to what the evaluator
    looks at: elements with a tag, attributes and children, text, comments, and
    the document node the parser roots the tree in. */
module Dom {

  datatype Node =
    | Document(children: seq<Node>)
    | Text(text: string)
    | Comment(text: string)
    | Element(tag: string, attrs: map<string, string>, children: seq<Node>)

  /** `ElementRef::text`: the descendant text nodes of `n`, in document order. */
  function TextContent(n: Node): (r: seq<string>)
    decreases n
    ensures n.Text? ==> r == [n.text]
    ensures n.Comment? ==> r == []
  {
    match n
    case Text(t) => [t]
    case Comment(_) => []
    case Document(children) => TextContentSeq(children)
    case Element(_, _, children) => TextContentSeq(children)
  }

  function TextContentSeq(ns: seq<Node>): (r: seq<string>)
    decreases ns
    ensures ns == [] ==> r == []
  {
    if ns == [] then [] else TextContent(ns[0]) + TextContentSeq(ns[1..])
  }

  /** The text of consecutive siblings is the text of the first ones followed
      by the text of the rest: text is collected in document order. */
  lemma {:induction false} TextContentSeqAppend(a: seq<Node>, b: seq<Node>)
    ensures TextContentSeq(a + b) == TextContentSeq(a) + TextContentSeq(b)
    decreases a
  {
    if a != [] {
      assert (a + b)[0] == a[0];
      assert (a + b)[1..] == a[1..] + b;
      TextContentSeqAppend(a[1..], b);
    } else {
      assert a + b == b;
    }
  }

  /** Whether `n` is a text node or has one among its descendants. */
  predicate ContainsText(n: Node)
    decreases n
  {
    match n
    case Text(_) => true
    case Comment(_) => false
    case Document(children) => exists i :: 0 <= i < |children| && ContainsText(children[i])
    case Element(_, _, children) => exists i :: 0 <= i < |children| && ContainsText(children[i])
  }

  /** A node contributes text exactly when some text node lies inside it
      (an empty text node still contributes its empty string). */
  lemma {:induction false} TextContentNonEmpty(n: Node)
    ensures |TextContent(n)| > 0 <==> ContainsText(n)
    decreases n, 1
  {
    match n
    case Text(_) =>
    case Comment(_) =>
    case Document(children) => TextContentSeqNonEmpty(children);
    case Element(_, _, children) => TextContentSeqNonEmpty(children);
  }

  lemma {:induction false} TextContentSeqNonEmpty(ns: seq<Node>)
    ensures |TextContentSeq(ns)| > 0 <==> exists i :: 0 <= i < |ns| && ContainsText(ns[i])
    decreases ns, 0
  {
    if ns != [] {
      TextContentNonEmpty(ns[0]);
      TextContentSeqNonEmpty(ns[1..]);
      if exists i :: 0 <= i < |ns| && ContainsText(ns[i]) {
        var i :| 0 <= i < |ns| && ContainsText(ns[i]);
        if i > 0 {
          assert ns[1..][i - 1] == ns[i];
        }
      }
      if exists j :: 0 <= j < |ns[1..]| && ContainsText(ns[1..][j]) {
        var j :| 0 <= j < |ns[1..]| && ContainsText(ns[1..][j]);
        assert ns[1..][j] == ns[j + 1];
      }
    }
  }
}
