/**
 * The codec: marshall renders an element and everything below it as XML text; unmarshall
 * builds a tree of nodes from the events of a streaming XML tokenizer, with a stack of the
 * elements that are open.
 */
module HyperXml {
  import opened Wrappers
  import opened XmlTree
  import Strings

  // ---------------------------------------------------------------------------
  // marshall
  // ---------------------------------------------------------------------------

  /**
   * The qualified tag name: "prefix:name" when the prefix is present and not empty, else the
   * bare name. An absent (null) prefix counts as empty.
   */
  function FullName(prefix: Option<string>, name: string): (r: string)
    ensures prefix.None? || prefix.value == "" ==> r == name
    ensures prefix.Some? && prefix.value != "" ==> r == prefix.value + ":" + name
  {
    if prefix.None? || prefix.value == "" then name else prefix.value + ":" + name
  }

  /**
   * The qualified name as the original computes it: it asks the prefix whether it is empty,
   * which throws a NullPointerException (None here) when the prefix is null.
   */
  function FullNameAsWritten(prefix: Option<string>, name: string): (r: Option<string>)
    ensures r.None? <==> prefix.None?
  {
    match prefix
    case None => None
    case Some(p) => Some(if p == "" then name else p + ":" + name)
  }

  /** A node built by the name-only constructor has a null prefix, so the original cannot marshall it. */
  lemma NameOnlyNodeCannotBeMarshalled(name: string)
    ensures FullNameAsWritten(None, name) == None
    ensures FullName(None, name) == name
  {
  }

  /** Where the original does not throw, the corrected qualified name is the one it computes. */
  lemma FullNameAgrees(prefix: Option<string>, name: string)
    requires prefix.Some?
    ensures FullNameAsWritten(prefix, name) == Some(FullName(prefix, name))
  {
  }

  /**
   * The arguments in insertion order, each as  key="value", copied verbatim (no escaping).
   * Nothing is written for no arguments; otherwise a space separates them from the tag name.
   */
  function ArgumentsText(args: seq<Argument>): (r: string)
    ensures r == [] <==> args == []
    ensures r != [] ==> r[0] == ' '
  {
    if args == [] then "" else ArgumentText(args[0]) + ArgumentsText(args[1..])
  }

  /** One argument as written into a tag:  key="value"  after a separating space. */
  function ArgumentText(a: Argument): string {
    " " + a.key + "=\"" + a.value + "\""
  }

  /** An argument added last is written last: the text of args + [a] is that of args followed by a's. */
  lemma {:induction false} ArgumentsTextAppend(args: seq<Argument>, a: Argument)
    ensures ArgumentsText(args + [a]) == ArgumentsText(args) + ArgumentText(a)
  {
    if args == [] {
      assert args + [a] == [a];
    } else {
      assert (args + [a])[1..] == args[1..] + [a];
      ArgumentsTextAppend(args[1..], a);
      var head := ArgumentText(args[0]);
      assert ArgumentsText(args + [a]) == head + (ArgumentsText(args[1..]) + ArgumentText(a));
    }
  }

  /** No children and no (or an empty) value: the element is written as one self-closing tag. */
  predicate SelfClosing(e: Element) {
    e.children == [] && (e.value.None? || e.value.value == "")
  }

  /** The value text written after the opening tag: the value when present and not empty. */
  function ValueText(value: Option<string>): string {
    if value.Some? && value.value != "" then value.value else ""
  }

  /** marshall: the element as XML text; every result starts with its opening tag and ends with a newline. */
  function Marshall(e: Element): (s: string)
    ensures |s| > 1 + |FullName(e.prefix, e.name)| && s[0] == '<' && s[|s| - 1] == '\n'
    ensures s[1..1 + |FullName(e.prefix, e.name)|] == FullName(e.prefix, e.name)
  {
    var fullName := FullName(e.prefix, e.name);
    var open := "<" + fullName + ArgumentsText(e.arguments);
    assert open[1..1 + |fullName|] == fullName;
    if SelfClosing(e) then open + "/>\n"
    else open + ">" + ValueText(e.value) + MarshallChildren(e.children) + "</" + fullName + ">\n"
  }

  /** Each child in order, each preceded by a newline. */
  function MarshallChildren(cs: seq<Element>): string {
    if cs == [] then "" else "\n" + Marshall(cs[0]) + MarshallChildren(cs[1..])
  }

  /** One piece of marshall's output: a tag, or a run of text between tags. */
  datatype Piece =
    | OpenTag(qname: string, args: seq<Argument>)
    | EmptyTag(qname: string, args: seq<Argument>)
    | CloseTag(qname: string)
    | Text(text: string)

  function Render(p: Piece): string {
    match p
    case OpenTag(q, args) => "<" + q + ArgumentsText(args) + ">"
    case EmptyTag(q, args) => "<" + q + ArgumentsText(args) + "/>"
    case CloseTag(q) => "</" + q + ">"
    case Text(t) => t
  }

  function RenderAll(ps: seq<Piece>): string {
    if ps == [] then "" else Render(ps[0]) + RenderAll(ps[1..])
  }

  /** The pieces marshall lays out for an element, in output order. */
  function Layout(e: Element): seq<Piece> {
    var q := FullName(e.prefix, e.name);
    if SelfClosing(e) then [EmptyTag(q, e.arguments), Text("\n")]
    else
      [OpenTag(q, e.arguments)] +
      ((if ValueText(e.value) == "" then [] else [Text(ValueText(e.value))]) +
       (ChildrenLayout(e.children) + [CloseTag(q), Text("\n")]))
  }

  function ChildrenLayout(cs: seq<Element>): seq<Piece> {
    if cs == [] then [] else [Text("\n")] + (Layout(cs[0]) + ChildrenLayout(cs[1..]))
  }

  lemma {:induction false} RenderAllConcat(a: seq<Piece>, b: seq<Piece>)
    ensures RenderAll(a + b) == RenderAll(a) + RenderAll(b)
  {
    if a != [] {
      assert (a + b)[1..] == a[1..] + b;
      RenderAllConcat(a[1..], b);
    } else {
      assert a + b == b;
    }
  }

  lemma Associate(a: string, b: string, c: string, d: string)
    ensures a + b + c + d == a + (b + (c + d))
  {
  }

  lemma RenderOne(p: Piece)
    ensures RenderAll([p]) == Render(p)
  {
    assert RenderAll([p]) == Render(p) + RenderAll([]);
  }

  /** marshall's text is exactly its layout rendered piece by piece. */
  lemma {:induction false} MarshallIsLayout(e: Element)
    ensures Marshall(e) == RenderAll(Layout(e))
    decreases e, 1
  {
    if SelfClosing(e) {
      RenderSelfClosing(e);
    } else {
      MarshallChildrenIsLayout(e.children);
      OpenIsLayout(e);
    }
  }

  /** An element with content, once its children are known to render as their layout. */
  lemma OpenIsLayout(e: Element)
    requires !SelfClosing(e) && MarshallChildren(e.children) == RenderAll(ChildrenLayout(e.children))
    ensures Marshall(e) == RenderAll(Layout(e))
  {
    var q := FullName(e.prefix, e.name);
    var o := "<" + q + ArgumentsText(e.arguments) + ">";
    var v := ValueText(e.value);
    var m := MarshallChildren(e.children);
    var c := "</" + q + ">\n";
    assert Marshall(e) == o + v + m + c by {
      Associate(o + v + m, "</", q, ">\n");
      Associate(o + v + m, "</", q + ">", "\n");
    }
    assert RenderAll(Layout(e)) == o + (v + (m + c)) by {
      RenderOpenClose(e);
      CloseText(q);
    }
    Associate(o, v, m, c);
  }

  lemma CloseText(q: string)
    ensures Render(CloseTag(q)) + "\n" == "</" + q + ">\n"
  {
  }

  lemma RenderSelfClosing(e: Element)
    requires SelfClosing(e)
    ensures RenderAll(Layout(e)) == "<" + FullName(e.prefix, e.name) + ArgumentsText(e.arguments) + "/>\n"
  {
    var q := FullName(e.prefix, e.name);
    RenderAllConcat([EmptyTag(q, e.arguments)], [Text("\n")]);
    RenderOne(EmptyTag(q, e.arguments));
    RenderOne(Text("\n"));
    assert "/>" + "\n" == "/>\n";
  }

  lemma RenderOpenClose(e: Element)
    requires !SelfClosing(e)
    ensures var q := FullName(e.prefix, e.name);
      RenderAll(Layout(e)) ==
        Render(OpenTag(q, e.arguments)) +
        (ValueText(e.value) + (RenderAll(ChildrenLayout(e.children)) + (Render(CloseTag(q)) + "\n")))
  {
    var q := FullName(e.prefix, e.name);
    var vs := if ValueText(e.value) == "" then [] else [Text(ValueText(e.value))];
    var cl := ChildrenLayout(e.children);
    var tail := [CloseTag(q), Text("\n")];
    RenderAllConcat([OpenTag(q, e.arguments)], vs + (cl + tail));
    RenderAllConcat(vs, cl + tail);
    RenderAllConcat(cl, tail);
    RenderAllConcat([CloseTag(q)], [Text("\n")]);
    RenderOne(OpenTag(q, e.arguments));
    RenderOne(CloseTag(q));
    RenderOne(Text("\n"));
    if vs != [] {
      RenderOne(vs[0]);
    }
  }

  lemma {:induction false} MarshallChildrenIsLayout(cs: seq<Element>)
    ensures MarshallChildren(cs) == RenderAll(ChildrenLayout(cs))
    decreases cs, 0
  {
    if cs != [] {
      MarshallIsLayout(cs[0]);
      MarshallChildrenIsLayout(cs[1..]);
      ChildrenLayoutStep(cs);
    }
  }

  lemma ChildrenLayoutStep(cs: seq<Element>)
    requires cs != []
    ensures RenderAll(ChildrenLayout(cs)) == "\n" + RenderAll(Layout(cs[0])) + RenderAll(ChildrenLayout(cs[1..]))
  {
    RenderAllConcat([Text("\n")], Layout(cs[0]) + ChildrenLayout(cs[1..]));
    RenderAllConcat(Layout(cs[0]), ChildrenLayout(cs[1..]));
    RenderOne(Text("\n"));
  }

  // ---------------------------------------------------------------------------
  // unmarshall: the events it consumes, and the tree it builds, as values
  // ---------------------------------------------------------------------------

  /** A namespace declaration of a start tag; the default namespace has no (a null) prefix. */
  datatype Namespace = Namespace(prefix: Option<string>, uri: string)

  /** What the streaming tokenizer reports: start tags, character data (with its white-space test), end tags. */
  datatype Event =
    | Start(prefix: Option<string>, localName: string, namespaces: seq<Namespace>, attributes: seq<Argument>)
    | Chars(text: string, isWhiteSpace: bool)
    | End

  /** The argument key a declaration is recorded under: "xmlns:" and the prefix, which Java writes as "null" when absent. */
  function NamespaceKey(ns: Namespace): string {
    "xmlns:" + (if ns.prefix.None? then "null" else ns.prefix.value)
  }

  /** The declarations as the key/value pairs the start handler adds. */
  function Declarations(nss: seq<Namespace>): (r: seq<Argument>)
    ensures |r| == |nss|
  {
    if nss == [] then [] else [Argument(NamespaceKey(nss[0]), nss[0].uri)] + Declarations(nss[1..])
  }

  /** What a run of addArgument calls leaves in the list. */
  function AddArguments(args: seq<Argument>, pairs: seq<Argument>): seq<Argument>
    decreases |pairs|
  {
    if pairs == [] then args
    else AddArguments(WithArgument(args, pairs[0].key, pairs[0].value), pairs[1..])
  }

  /** A run of addArgument calls only appends: the pairs already there stay first, and every pair added was offered. */
  lemma {:induction false} AddArgumentsAppends(args: seq<Argument>, pairs: seq<Argument>)
    ensures args <= AddArguments(args, pairs)
    ensures forall a :: a in AddArguments(args, pairs) ==> a in args || a in pairs
    decreases |pairs|
  {
    if pairs != [] {
      var w := WithArgument(args, pairs[0].key, pairs[0].value);
      AddArgumentsAppends(w, pairs[1..]);
      assert forall a :: a in pairs[1..] ==> a in pairs;
    }
  }

  /**
   * A run of addArgument calls keeps the keys distinct and, for every key, the first pair
   * offered with it: a repeated key is dropped, whether it was already there or came later.
   */
  lemma {:induction false} AddArgumentsFirstWins(args: seq<Argument>, pairs: seq<Argument>, k: string)
    requires DistinctKeys(args)
    ensures DistinctKeys(AddArguments(args, pairs))
    ensures Lookup(AddArguments(args, pairs), k) == Lookup(args + pairs, k)
    decreases |pairs|
  {
    if pairs == [] {
      assert args + pairs == args;
    } else {
      var p, rest := pairs[0], pairs[1..];
      var w := WithArgument(args, p.key, p.value);
      WithArgumentFirstWins(args, p.key, p.value);
      AddArgumentsFirstWins(w, rest, k);
      LookupConcat(w, rest, k);
      LookupConcat(args, pairs, k);
      LookupConcat([p], rest, k);
      assert pairs == [p] + rest;
    }
  }

  /**
   * The node a start tag creates holds distinct keys, and under each key the first value
   * among its namespace declarations followed by its attributes.
   */
  lemma StartArgumentsFirstWins(nss: seq<Namespace>, attributes: seq<Argument>, k: string)
    ensures DistinctKeys(StartArguments(nss, attributes))
    ensures Lookup(StartArguments(nss, attributes), k) == Lookup(Declarations(nss) + attributes, k)
  {
    var decls := Declarations(nss);
    AddArgumentsFirstWins([], decls, k);
    AddArgumentsFirstWins(AddArguments([], decls), attributes, k);
    LookupConcat(AddArguments([], decls), attributes, k);
    LookupConcat(decls, attributes, k);
    assert [] + decls == decls;
  }

  /** The arguments a start tag's node receives: the declarations first, then the attributes. */
  function StartArguments(nss: seq<Namespace>, attributes: seq<Argument>): seq<Argument> {
    AddArguments(AddArguments([], Declarations(nss)), attributes)
  }

  /** The builder's state: the open elements (bottom of the stack first) and the last element closed. */
  datatype Builder = Builder(open: seq<Element>, last: Option<Element>)

  /** What an event does to the depth of the stack of open elements. */
  function Weight(ev: Event): int {
    match ev
    case Start(_, _, _, _) => 1
    case Chars(_, _) => 0
    case End => -1
  }

  /** The number of start tags minus the number of end tags. */
  function Depth(evs: seq<Event>): int {
    if evs == [] then 0 else Weight(evs[0]) + Depth(evs[1..])
  }

  /** Two elements opened by the same start tag: same prefix, local name and arguments. */
  predicate SameTag(x: Element, y: Element) {
    x.prefix == y.prefix && x.name == y.name && x.arguments == y.arguments
  }

  function WithChild(parent: Element, child: Element): Element {
    parent.(children := parent.children + [child])
  }

  /** The open elements once `closed` has been popped off the top of `rest + [closed]`: the new top gains it as a child. */
  function AttachLast(rest: seq<Element>, closed: Element): seq<Element> {
    if rest == [] then [] else rest[..|rest| - 1] + [WithChild(rest[|rest| - 1], closed)]
  }

  /**
   * One event. A start tag opens a new element; non-white-space text replaces the value of
   * the innermost open element by its trimmed form; an end tag closes the innermost element,
   * adds it as the last child of the element now innermost, and records it as the last closed.
   * An end tag with nothing open fails (the stack's pop throws).
   */
  function Step(b: Builder, ev: Event): (r: Option<Builder>)
    ensures r.None? <==> ev.End? && b.open == []
    ensures r.Some? ==> |r.value.open| == |b.open| + Weight(ev)
    ensures r.Some? ==> r.value.last == if ev.End? then Some(b.open[|b.open| - 1]) else b.last
  {
    match ev
    case Start(prefix, localName, nss, attributes) =>
      Some(b.(open := b.open + [Element(prefix, localName, None, StartArguments(nss, attributes), [])]))
    case Chars(text, isWhiteSpace) =>
      if b.open != [] && !isWhiteSpace then
        var top := b.open[|b.open| - 1];
        Some(b.(open := b.open[..|b.open| - 1] + [top.(value := Some(Strings.Trim(text)))]))
      else Some(b)
    case End =>
      if b.open == [] then None
      else
        var closed := b.open[|b.open| - 1];
        var rest := b.open[..|b.open| - 1];
        Some(Builder(AttachLast(rest, closed), Some(closed)))
  }

  /** A run of events, one step after another; only an end tag can make it fail. */
  function Run(b: Builder, evs: seq<Event>): (r: Option<Builder>)
    ensures r.None? ==> exists i :: 0 <= i < |evs| && evs[i].End?
    decreases |evs|
  {
    if evs == [] then Some(b)
    else
      match Step(b, evs[0])
      case None => None
      case Some(b') =>
        var r := Run(b', evs[1..]);
        assert r.None? ==> exists i :: 1 <= i < |evs| && evs[i].End? by {
          assert forall i :: 0 <= i < |evs| - 1 ==> evs[1..][i] == evs[i + 1];
        }
        r
  }

  /** A run moves the stack of open elements by the events' depth. */
  lemma {:induction false} RunDepth(b: Builder, evs: seq<Event>)
    requires Run(b, evs).Some?
    ensures |Run(b, evs).value.open| == |b.open| + Depth(evs)
    decreases |evs|
  {
    if evs != [] {
      RunDepth(Step(b, evs[0]).value, evs[1..]);
    }
  }

  /**
   * What unmarshall returns for an event sequence: None when it throws, else the last element
   * closed (if any). It throws only at an end tag, and it returns an element only when some
   * end tag occurs.
   */
  function Unmarshalled(evs: seq<Event>): (r: Option<Option<Element>>)
    ensures r.None? ==> exists i :: 0 <= i < |evs| && evs[i].End?
    ensures r.Some? && r.value.Some? ==> exists i :: 0 <= i < |evs| && evs[i].End?
  {
    match Run(Builder([], None), evs)
    case None => None
    case Some(b) => RunLast(Builder([], None), evs); Some(b.last)
  }

  /** Running two event sequences one after the other is running their concatenation. */
  lemma {:induction false} RunConcat(b: Builder, x: seq<Event>, y: seq<Event>)
    ensures Run(b, x + y) == match Run(b, x) case None => None case Some(b') => Run(b', y)
    decreases |x|
  {
    if x == [] {
      assert x + y == y;
    } else {
      assert (x + y)[0] == x[0] && (x + y)[1..] == x[1..] + y;
      match Step(b, x[0])
      case None =>
      case Some(b') => RunConcat(b', x[1..], y);
    }
  }

  /** Text alone builds nothing: a sequence with no start or end tag yields no element (null). */
  lemma {:induction false} TextOnlyYieldsNothing(evs: seq<Event>)
    requires forall i :: 0 <= i < |evs| ==> evs[i].Chars?
    ensures Unmarshalled(evs) == Some(None)
  {
    TextKeepsClosed(Builder([], None), evs);
  }

  /** Once nothing is open, text changes nothing: neither the stack nor the element last closed. */
  lemma {:induction false} TextKeepsClosed(b: Builder, evs: seq<Event>)
    requires b.open == []
    requires forall i :: 0 <= i < |evs| ==> evs[i].Chars?
    ensures Run(b, evs) == Some(b)
  {
    if evs != [] {
      TextKeepsClosed(b, evs[1..]);
    }
  }

  /**
   * A step leaves the open elements below the top as they are, except that an end tag adds
   * the closed element to the one below it; every element still open keeps its tag; a start
   * tag pushes a fresh element with no value and no children.
   */
  lemma StepKeepsBelow(b: Builder, ev: Event, b': Builder)
    requires Step(b, ev) == Some(b')
    ensures forall i :: 0 <= i < |b.open| - 1 && i < |b'.open| - 1 ==> b'.open[i] == b.open[i]
    ensures forall i :: 0 <= i < |b.open| && i < |b'.open| ==> SameTag(b'.open[i], b.open[i])
    ensures ev.Start? ==> b'.open[|b.open|] == Element(ev.prefix, ev.localName, None, StartArguments(ev.namespaces, ev.attributes), [])
  {
    match ev
    case Start(prefix, localName, nss, attributes) =>
      assert b'.open == b.open + [Element(prefix, localName, None, StartArguments(nss, attributes), [])];
    case Chars(text, isWhiteSpace) =>
      if b.open != [] && !isWhiteSpace {
        var top := b.open[|b.open| - 1];
        var top' := top.(value := Some(Strings.Trim(text)));
        assert b'.open == b.open[..|b.open| - 1] + [top'];
        ReplaceTopKeepsBelow(b.open, top');
      } else {
        assert b'.open == b.open;
      }
    case End =>
      var rest := b.open[..|b.open| - 1];
      assert b'.open == AttachLast(rest, b.open[|b.open| - 1]);
      AttachKeepsBelow(rest, b.open[|b.open| - 1]);
  }

  /** Replacing the top of a stack by an element with the same tag keeps the rest and every tag. */
  lemma ReplaceTopKeepsBelow(open: seq<Element>, top: Element)
    requires open != [] && SameTag(top, open[|open| - 1])
    ensures var open' := open[..|open| - 1] + [top];
      |open'| == |open| &&
      (forall i :: 0 <= i < |open| - 1 ==> open'[i] == open[i]) &&
      (forall i :: 0 <= i < |open| ==> SameTag(open'[i], open[i]))
  {
  }

  /** Attaching a closed element to the new top keeps the rest and every tag. */
  lemma AttachKeepsBelow(rest: seq<Element>, closed: Element)
    ensures var open := AttachLast(rest, closed);
      |open| == |rest| &&
      (forall i :: 0 <= i < |rest| - 1 ==> open[i] == rest[i]) &&
      (forall i :: 0 <= i < |rest| ==> SameTag(open[i], rest[i]))
  {
    if rest != [] {
      var open := rest[..|rest| - 1] + [WithChild(rest[|rest| - 1], closed)];
      assert forall i :: 0 <= i < |rest| - 1 ==> open[i] == rest[i];
    }
  }

  /** After a run an element has been closed exactly when one had been before or an end tag occurs among the events. */
  lemma {:induction false} RunLast(b: Builder, evs: seq<Event>)
    requires Run(b, evs).Some?
    ensures Run(b, evs).value.last.None? <==> b.last.None? && forall i :: 0 <= i < |evs| ==> !evs[i].End?
    decreases |evs|
  {
    if evs != [] {
      var b1 := Step(b, evs[0]).value;
      RunLast(b1, evs[1..]);
      assert forall i :: 0 <= i < |evs| - 1 ==> evs[1..][i] == evs[i + 1];
    }
  }

  /** The run fails exactly when an end tag arrives with nothing open: some prefix of the events closes more than is open. */
  lemma {:induction false} RunSucceedsIffNoUnderflow(b: Builder, evs: seq<Event>)
    ensures Run(b, evs).Some? <==> forall k :: 0 <= k <= |evs| ==> |b.open| + Depth(evs[..k]) >= 0
    decreases |evs|
  {
    if evs != [] {
      assert evs[..0] == [];
      assert evs[..1][1..] == [];
      match Step(b, evs[0])
      case None =>
        assert |b.open| + Depth(evs[..1]) < 0;
      case Some(b1) =>
        RunSucceedsIffNoUnderflow(b1, evs[1..]);
        forall k | 0 <= k < |evs|
          ensures Depth(evs[..k + 1]) == Weight(evs[0]) + Depth(evs[1..][..k])
        {
          DepthOfPrefix(evs, k);
        }
        if Run(b1, evs[1..]).Some? {
          forall k | 0 <= k <= |evs|
            ensures |b.open| + Depth(evs[..k]) >= 0
          {
            if k > 0 {
              assert |b1.open| + Depth(evs[1..][..k - 1]) >= 0;
              DepthOfPrefix(evs, k - 1);
            }
          }
        } else {
          var k :| 0 <= k <= |evs[1..]| && |b1.open| + Depth(evs[1..][..k]) < 0;
          DepthOfPrefix(evs, k);
        }
    }
  }

  /** The depth of a non-empty prefix: the first event's weight and then the depth of the rest of the prefix. */
  lemma DepthOfPrefix(evs: seq<Event>, k: nat)
    requires k < |evs|
    ensures Depth(evs[..k + 1]) == Weight(evs[0]) + Depth(evs[1..][..k])
  {
    assert evs[..k + 1][1..] == evs[1..][..k];
  }

  /**
   * Events that never close more than they opened above level `base` of the stack: they run
   * through, the stack ends `Depth(evs)` deeper, the elements below `base` stay as they are
   * and the one at `base` keeps its tag (it may gain a value and children).
   */
  lemma {:induction false} RunAbove(b: Builder, evs: seq<Event>, base: nat)
    requires base < |b.open|
    requires forall k :: 0 <= k <= |evs| ==> |b.open| + Depth(evs[..k]) > base
    ensures Run(b, evs).Some?
    ensures |Run(b, evs).value.open| == |b.open| + Depth(evs) > base
    ensures Run(b, evs).value.open[..base] == b.open[..base]
    ensures SameTag(Run(b, evs).value.open[base], b.open[base])
    decreases |evs|
  {
    assert evs[..|evs|] == evs;
    if evs != [] {
      DepthOfPrefix(evs, 0);
      assert |b.open| + Depth(evs[..1]) > base;
      var b1 := Step(b, evs[0]).value;
      AboveStep(b, evs[0], b1, base);
      DepthsAbove(b, evs, b1, base);
      RunAbove(b1, evs[1..], base);
      assert Run(b, evs) == Run(b1, evs[1..]);
    }
  }

  /** A step that leaves the stack above level `base` keeps everything below `base` and the tag at `base`. */
  lemma AboveStep(b: Builder, ev: Event, b1: Builder, base: nat)
    requires Step(b, ev) == Some(b1) && base < |b.open| && base < |b1.open|
    ensures b1.open[..base] == b.open[..base] && SameTag(b1.open[base], b.open[base])
  {
    StepKeepsBelow(b, ev, b1);
    assert forall i :: 0 <= i < base ==> b1.open[..base][i] == b.open[..base][i];
  }

  /** After the first event, the rest of the events still stay above `base` from the new builder. */
  lemma DepthsAbove(b: Builder, evs: seq<Event>, b1: Builder, base: nat)
    requires evs != [] && Step(b, evs[0]) == Some(b1)
    requires forall k :: 0 <= k <= |evs| ==> |b.open| + Depth(evs[..k]) > base
    ensures forall k :: 0 <= k <= |evs| - 1 ==> |b1.open| + Depth(evs[1..][..k]) > base
  {
    forall k | 0 <= k <= |evs| - 1
      ensures |b1.open| + Depth(evs[1..][..k]) > base
    {
      DepthOfPrefix(evs, k);
    }
  }

  /**
   * A well-nested document: a start tag, a body whose end tags never close more than it
   * opened and which closes all it opens, the matching end tag, then only text. Unmarshall
   * leaves nothing open and returns the outermost element: the one the first start tag
   * opened, as the body left it at the bottom of the stack, with that tag.
   */
  lemma OutermostReturned(prefix: Option<string>, localName: string, nss: seq<Namespace>, attributes: seq<Argument>,
                          body: seq<Event>, text: seq<Event>)
    requires forall k :: 0 <= k <= |body| ==> Depth(body[..k]) >= 0
    requires Depth(body) == 0
    requires forall i :: 0 <= i < |text| ==> text[i].Chars?
    ensures var b1 := Builder([Element(prefix, localName, None, StartArguments(nss, attributes), [])], None);
      Run(b1, body).Some? && |Run(b1, body).value.open| == 1
    ensures var b1 := Builder([Element(prefix, localName, None, StartArguments(nss, attributes), [])], None);
      var r := Run(Builder([], None), [Start(prefix, localName, nss, attributes)] + body + [End] + text);
      r.Some? && r.value.open == [] && r.value.last == Some(Run(b1, body).value.open[0]) &&
      SameTag(r.value.last.value, Element(prefix, localName, None, StartArguments(nss, attributes), []))
  {
    var b1 := Builder([Element(prefix, localName, None, StartArguments(nss, attributes), [])], None);
    RunAbove(b1, body, 0);
    OutermostCloses(prefix, localName, nss, attributes, body, text, Run(b1, body).value);
  }

  /** The steps around a body that leaves exactly the outermost element open, with its tag. */
  lemma OutermostCloses(prefix: Option<string>, localName: string, nss: seq<Namespace>, attributes: seq<Argument>,
                        body: seq<Event>, text: seq<Event>, b2: Builder)
    requires Run(Builder([Element(prefix, localName, None, StartArguments(nss, attributes), [])], None), body) == Some(b2)
    requires |b2.open| == 1 && SameTag(b2.open[0], Element(prefix, localName, None, StartArguments(nss, attributes), []))
    requires forall i :: 0 <= i < |text| ==> text[i].Chars?
    ensures var r := Run(Builder([], None), [Start(prefix, localName, nss, attributes)] + body + [End] + text);
      r.Some? && r.value.open == [] && r.value.last == Some(b2.open[0])
  {
    var first := Start(prefix, localName, nss, attributes);
    var b0 := Builder([], None);
    var b1 := Builder([Element(prefix, localName, None, StartArguments(nss, attributes), [])], None);
    OpenOnEmpty(prefix, localName, nss, attributes);
    var b3 := Builder([], Some(b2.open[0]));
    assert Run(b2, [End]) == Some(b3) by {
      assert b2.open[..0] == [];
      RunOne(b2, End);
    }
    TextKeepsClosed(b3, text);
    Regroup(first, body, text);
    RunConcat(b2, [End], text);
    RunConcat(b1, body, [End] + text);
    RunConcat(b0, [first], body + ([End] + text));
  }

  /** A start tag with nothing open opens exactly the element it names. */
  lemma OpenOnEmpty(prefix: Option<string>, localName: string, nss: seq<Namespace>, attributes: seq<Argument>)
    ensures Run(Builder([], None), [Start(prefix, localName, nss, attributes)]) ==
      Some(Builder([Element(prefix, localName, None, StartArguments(nss, attributes), [])], None))
  {
    var x := Element(prefix, localName, None, StartArguments(nss, attributes), []);
    var b0 := Builder([], None);
    assert b0.open + [x] == [x];
    assert Step(b0, Start(prefix, localName, nss, attributes)) == Some(Builder([x], None));
    RunOne(b0, Start(prefix, localName, nss, attributes));
  }

  lemma Regroup(first: Event, body: seq<Event>, text: seq<Event>)
    ensures [first] + body + [End] + text == [first] + (body + ([End] + text))
  {
  }

  /** Character data overwrites: of two non-white-space chunks inside one element, only the last survives. */
  lemma LastChunkWins(b: Builder, t1: string, t2: string)
    requires b.open != []
    ensures Run(b, [Chars(t1, false), Chars(t2, false)]) == Run(b, [Chars(t2, false)])
  {
    var top := b.open[|b.open| - 1];
    var b1 := b.(open := b.open[..|b.open| - 1] + [top.(value := Some(Strings.Trim(t1)))]);
    assert Step(b, Chars(t1, false)) == Some(b1);
    assert b1.open[..|b1.open| - 1] == b.open[..|b.open| - 1];
    assert [Chars(t1, false), Chars(t2, false)][1..] == [Chars(t2, false)];
  }

  lemma RunOne(b: Builder, ev: Event)
    ensures Run(b, [ev]) == Step(b, ev)
  {
    assert [ev][1..] == [];
  }

  // ---------------------------------------------------------------------------
  // unmarshall on the heap
  // ---------------------------------------------------------------------------

  /**
   * An open node mirrors an open element: same fields; its first children are closed nodes
   * standing, in T, for the element's children; and the node opened above it, if any, is
   * already its last child (the code attaches a node to its parent at the start tag).
   */
  ghost predicate OpenMirrors(n: XmlNode, e: Element, T: map<XmlNode, Element>, next: XmlNode?)
    reads n
  {
    n.prefix == e.prefix && n.name == e.name && n.value == e.value && n.arguments == e.arguments &&
    |n.children| == |e.children| + (if next == null then 0 else 1) &&
    (next != null ==> n.children[|e.children|] == next) &&
    forall j :: 0 <= j < |e.children| ==> n.children[j] in T && T[n.children[j]] == e.children[j]
  }

  /**
   * The stack of nodes mirrors the builder's open elements, bottom first: each node is valid,
   * not frozen, not repeated below, and mirrors its element with the node above it as its
   * last child; for the top that is `above`, a node attached to it but not yet pushed.
   */
  ghost predicate StackMirrors(stack: seq<XmlNode>, open: seq<Element>, T: map<XmlNode, Element>, F: set<XmlNode>, above: XmlNode?)
    reads stack
    decreases |stack|
  {
    |stack| == |open| &&
    (stack != [] ==>
      var t := |stack| - 1;
      StackMirrors(stack[..t], open[..t], T, F, stack[t]) &&
      stack[t] !in stack[..t] && stack[t] !in F && stack[t].Valid() &&
      OpenMirrors(stack[t], open[t], T, above))
  }

  /** No node on a mirrored stack is frozen. */
  lemma {:induction false} StackNotFrozen(stack: seq<XmlNode>, open: seq<Element>, T: map<XmlNode, Element>, F: set<XmlNode>, above: XmlNode?)
    requires StackMirrors(stack, open, T, F, above)
    ensures forall k :: 0 <= k < |stack| ==> stack[k] !in F
    decreases |stack|
  {
    if stack != [] {
      var t := |stack| - 1;
      StackNotFrozen(stack[..t], open[..t], T, F, stack[t]);
      assert forall k :: 0 <= k < t ==> stack[..t][k] == stack[k];
    }
  }

  /** The mirror survives T gaining entries and F gaining nodes that are not on the stack. */
  lemma {:induction false} StackMirrorsGrow(stack: seq<XmlNode>, open: seq<Element>, T: map<XmlNode, Element>, T': map<XmlNode, Element>,
                                            F: set<XmlNode>, F': set<XmlNode>, above: XmlNode?)
    requires StackMirrors(stack, open, T, F, above)
    requires forall c :: c in T ==> c in T' && T'[c] == T[c]
    requires forall k :: 0 <= k < |stack| ==> stack[k] !in F'
    ensures StackMirrors(stack, open, T', F', above)
    decreases |stack|
  {
    if stack != [] {
      var t := |stack| - 1;
      assert forall k :: 0 <= k < t ==> stack[..t][k] == stack[k];
      StackMirrorsGrow(stack[..t], open[..t], T, T', F, F', stack[t]);
    }
  }

  /**
   * Every closed node heads, among the frozen nodes F, the tree of the element T records for
   * it, and every frozen node is a closed one and satisfies the node invariant.
   */
  ghost predicate Frozen(T: map<XmlNode, Element>, F: set<XmlNode>)
    reads F
  {
    (forall c :: c in T ==> TreeIn(F, c) && Snapshot(F, c) == T[c]) &&
    forall n {:trigger n.Valid()} :: n in F ==> n in T && n.Valid()
  }

  /** The frozen nodes form a closed set: each is valid and its children are frozen too. */
  lemma FrozenClosed(T: map<XmlNode, Element>, F: set<XmlNode>)
    requires Frozen(T, F)
    ensures Closed(F)
  {
    forall m | m in F
      ensures m.Valid() && forall c :: c in m.children ==> c in F
    {
      assert m.Valid();
      assert m in T;
      assert TreeIn(F, m);
    }
  }

  /** The start-tag branch's node: its namespace declarations first, then its attributes, each added with addArgument. */
  method NewNode(prefix: Option<string>, localName: string, nss: seq<Namespace>, attributes: seq<Argument>)
    returns (n: XmlNode)
    ensures fresh(n) && n.Valid()
    ensures n.prefix == prefix && n.name == localName && n.value == None && n.children == []
    ensures n.arguments == StartArguments(nss, attributes)
  {
    n := new XmlNode.WithPrefix(prefix, localName);
    for j := 0 to |nss|
      invariant fresh(n) && n.Valid() && n.value == None && n.children == []
      invariant n.prefix == prefix && n.name == localName
      invariant AddArguments(n.arguments, Declarations(nss[j..])) == AddArguments([], Declarations(nss))
    {
      assert Declarations(nss[j..])[0] == Argument(NamespaceKey(nss[j]), nss[j].uri);
      assert Declarations(nss[j..])[1..] == Declarations(nss[j + 1..]);
      var _ := n.AddArgument(NamespaceKey(nss[j]), nss[j].uri);
    }
    assert nss[|nss|..] == [];
    for j := 0 to |attributes|
      invariant fresh(n) && n.Valid() && n.value == None && n.children == []
      invariant n.prefix == prefix && n.name == localName
      invariant AddArguments(n.arguments, attributes[j..]) == StartArguments(nss, attributes)
    {
      assert attributes[j..][1..] == attributes[j + 1..];
      var _ := n.AddArgument(attributes[j].key, attributes[j].value);
    }
    assert attributes[|attributes|..] == [];
  }

  /** The start-tag branch, first half: the new node becomes the last child of the top node. */
  method AttachChild(stack: seq<XmlNode>, ghost open: seq<Element>, ghost T: map<XmlNode, Element>, ghost F: set<XmlNode>, n: XmlNode)
    requires StackMirrors(stack, open, T, F, null) && stack != []
    modifies stack[|stack| - 1]
    ensures StackMirrors(stack, open, T, F, n)
  {
    var t := |stack| - 1;
    assert StackMirrors(stack[..t], open[..t], T, F, stack[t]) && OpenMirrors(stack[t], open[t], T, null);
    stack[t].AddNode(n);
  }

  /** The start-tag branch, second half: the attached node is pushed, mirroring the element it opens. */
  lemma PushOpen(stack: seq<XmlNode>, open: seq<Element>, T: map<XmlNode, Element>, F: set<XmlNode>, n: XmlNode, e: Element)
    requires StackMirrors(stack, open, T, F, n)
    requires n !in F && n.Valid() && n !in stack && OpenMirrors(n, e, T, null)
    ensures StackMirrors(stack + [n], open + [e], T, F, null)
  {
    assert (stack + [n])[..|stack|] == stack;
    assert (open + [e])[..|open|] == open;
  }

  /** The start-tag branch: create the node, attach it to the top node, push it. */
  method OpenNode(stack: seq<XmlNode>, ghost open: seq<Element>, ghost T: map<XmlNode, Element>, ghost F: set<XmlNode>,
                  prefix: Option<string>, localName: string, nss: seq<Namespace>, attributes: seq<Argument>)
    returns (stack': seq<XmlNode>)
    requires StackMirrors(stack, open, T, F, null)
    modifies if stack == [] then {} else {stack[|stack| - 1]}
    ensures StackMirrors(stack', open + [Element(prefix, localName, None, StartArguments(nss, attributes), [])], T, F, null)
    ensures stack' == stack + [stack'[|stack|]] && fresh(stack'[|stack|])
  {
    var n := NewNode(prefix, localName, nss, attributes);
    assert n !in stack;
    if stack != [] {
      AttachChild(stack, open, T, F, n);
    }
    PushOpen(stack, open, T, F, n, Element(prefix, localName, None, StartArguments(nss, attributes), []));
    stack' := stack + [n];
  }

  /** The text branch: the top node takes the trimmed text as its value. */
  method SetTopValue(stack: seq<XmlNode>, ghost open: seq<Element>, ghost T: map<XmlNode, Element>, ghost F: set<XmlNode>, v: string)
    requires StackMirrors(stack, open, T, F, null) && stack != [] && Frozen(T, F)
    modifies stack[|stack| - 1]
    ensures StackMirrors(stack, open[..|open| - 1] + [open[|open| - 1].(value := Some(v))], T, F, null)
    ensures Frozen(T, F)
  {
    var t := |stack| - 1;
    ghost var open' := open[..t] + [open[t].(value := Some(v))];
    assert open'[..t] == open[..t];
    assert StackMirrors(stack[..t], open[..t], T, F, stack[t]) && OpenMirrors(stack[t], open[t], T, null);
    stack[t].SetValue(Some(v));
    assert OpenMirrors(stack[t], open'[t], T, null);
  }

  /** A popped node heads, once frozen, exactly the element the builder closes. */
  lemma FreezeTop(x: XmlNode, closed: Element, T: map<XmlNode, Element>, F: set<XmlNode>)
    requires Frozen(T, F) && x !in F && x.Valid()
    requires OpenMirrors(x, closed, T, null)
    ensures TreeIn(F + {x}, x) && Snapshot(F + {x}, x) == closed
    ensures Frozen(T[x := closed], F + {x})
  {
    var G := F + {x};
    assert G - {x} == F;
    forall j | 0 <= j < |x.children|
      ensures TreeIn(F, x.children[j]) && Snapshots(F, x.children)[j] == closed.children[j]
    {
      SnapshotsAt(F, x.children, j);
    }
    assert Snapshots(F, x.children) == closed.children;
    forall c | c in T[x := closed]
      ensures TreeIn(G, c) && Snapshot(G, c) == T[x := closed][c]
    {
      if c != x {
        TreeInGrows(F, G, c);
      }
    }
    forall n | n in G
      ensures n in T[x := closed] && n.Valid()
    {
      if n != x {
        assert n in F;
      }
    }
  }

  /** Freezing a node that is not yet frozen keeps every entry of T. */
  lemma FreezeKeeps(T: map<XmlNode, Element>, F: set<XmlNode>, x: XmlNode, closed: Element)
    requires Frozen(T, F) && x !in F
    ensures forall c :: c in T ==> c in T[x := closed] && T[x := closed][c] == T[c]
  {
    forall c | c in T
      ensures c != x
    {
      assert TreeIn(F, c);
    }
  }

  /** Once the node above is closed and recorded in T, the node below mirrors its element with that child attached. */
  lemma ReattachBelow(below: seq<XmlNode>, rest: seq<Element>, T: map<XmlNode, Element>, F: set<XmlNode>, x: XmlNode, closed: Element)
    requires StackMirrors(below, rest, T, F, x) && x in T && T[x] == closed
    ensures StackMirrors(below, AttachLast(rest, closed), T, F, null)
  {
    if below != [] {
      var r := |below| - 1;
      var open' := AttachLast(rest, closed);
      assert open'[..r] == rest[..r] && open'[r] == WithChild(rest[r], closed);
      assert StackMirrors(below[..r], rest[..r], T, F, below[r]) && OpenMirrors(below[r], rest[r], T, x);
      OpenMirrorsClose(below[r], rest[r], T, x, closed);
    }
  }

  /** An open node whose last child has closed mirrors its element with that child attached. */
  lemma OpenMirrorsClose(n: XmlNode, e: Element, T: map<XmlNode, Element>, x: XmlNode, closed: Element)
    requires OpenMirrors(n, e, T, x) && x in T && T[x] == closed
    ensures OpenMirrors(n, WithChild(e, closed), T, null)
  {
    var cs := WithChild(e, closed).children;
    forall j | 0 <= j < |cs|
      ensures n.children[j] in T && T[n.children[j]] == cs[j]
    {
      if j < |e.children| {
        assert cs[j] == e.children[j];
      }
    }
  }

  /** The end-tag branch: the popped node is frozen, and the element below it gains it as its last child. */
  lemma CloseTop(stack: seq<XmlNode>, open: seq<Element>, T: map<XmlNode, Element>, F: set<XmlNode>)
    requires StackMirrors(stack, open, T, F, null) && Frozen(T, F) && stack != []
    ensures var x, closed := stack[|stack| - 1], open[|open| - 1];
      var T' := T[x := closed];
      x in T' && T'[x] == closed && Frozen(T', F + {x}) &&
      StackMirrors(stack[..|stack| - 1], AttachLast(open[..|open| - 1], closed), T', F + {x}, null)
  {
    var t := |stack| - 1;
    var x, closed, rest, below := stack[t], open[t], open[..t], stack[..t];
    var T' := T[x := closed];
    assert StackMirrors(below, rest, T, F, x) && x !in below && x !in F && x.Valid() && OpenMirrors(x, closed, T, null);
    FreezeTop(x, closed, T, F);
    FreezeKeeps(T, F, x, closed);
    StackNotFrozen(below, rest, T, F, x);
    StackMirrorsGrow(below, rest, T, T', F, F + {x}, x);
    ReattachBelow(below, rest, T', F + {x}, x, closed);
  }

  /** What holds between events: the stack mirrors the open elements, and root heads the last element closed. */
  ghost predicate Mirrors(stack: seq<XmlNode>, root: XmlNode?, b: Builder, T: map<XmlNode, Element>, F: set<XmlNode>)
    reads stack, F
  {
    StackMirrors(stack, b.open, T, F, null) && Frozen(T, F) &&
    (root == null <==> b.last.None?) &&
    (root != null ==> root in T && T[root] == b.last.value)
  }

  /** A start tag: the builder's step, done on the nodes. */
  method StartStep(stack: seq<XmlNode>, root: XmlNode?, ev: Event, ghost b: Builder, ghost T: map<XmlNode, Element>, ghost F: set<XmlNode>)
    returns (stack': seq<XmlNode>, ghost b': Builder)
    requires ev.Start? && Mirrors(stack, root, b, T, F)
    modifies if stack == [] then {} else {stack[|stack| - 1]}
    ensures Step(b, ev) == Some(b') && Mirrors(stack', root, b', T, F)
    ensures stack' == stack + [stack'[|stack|]] && fresh(stack'[|stack|])
  {
    assert Frozen(T, F);
    stack' := OpenNode(stack, b.open, T, F, ev.prefix, ev.localName, ev.namespaces, ev.attributes);
    b' := b.(open := b.open + [Element(ev.prefix, ev.localName, None, StartArguments(ev.namespaces, ev.attributes), [])]);
    assert Frozen(T, F);
  }

  /** Character data: the builder's step, done on the nodes. */
  method TextStep(stack: seq<XmlNode>, root: XmlNode?, ev: Event, ghost b: Builder, ghost T: map<XmlNode, Element>, ghost F: set<XmlNode>)
    returns (ghost b': Builder)
    requires ev.Chars? && Mirrors(stack, root, b, T, F)
    modifies if stack == [] then {} else {stack[|stack| - 1]}
    ensures Step(b, ev) == Some(b') && Mirrors(stack, root, b', T, F)
  {
    b' := b;
    if |stack| > 0 && !ev.isWhiteSpace {
      ghost var top := b.open[|b.open| - 1];
      b' := b.(open := b.open[..|b.open| - 1] + [top.(value := Some(Strings.Trim(ev.text)))]);
      assert Step(b, ev) == Some(b');
      SetTopValue(stack, b.open, T, F, Strings.Trim(ev.text));
    } else {
      assert Step(b, ev) == Some(b);
    }
  }

  /** An end tag: the builder's step, done on the nodes; it fails (the pop throws) when nothing is open. */
  method EndStep(stack: seq<XmlNode>, root: XmlNode?, ghost b: Builder, ghost T: map<XmlNode, Element>, ghost F: set<XmlNode>)
    returns (stack': seq<XmlNode>, root': XmlNode?, ok: bool, ghost b': Builder, ghost T': map<XmlNode, Element>, ghost F': set<XmlNode>)
    requires Mirrors(stack, root, b, T, F)
    ensures ok <==> Step(b, End).Some?
    ensures ok ==> Step(b, End) == Some(b') && Mirrors(stack', root', b', T', F')
    ensures ok ==> stack != [] && stack' == stack[..|stack| - 1] && root' == stack[|stack| - 1] && F' == F + {root'}
    ensures !ok ==> stack' == stack && root' == root && F' == F
  {
    stack', root', ok, b', T', F' := stack, root, false, b, T, F;
    if |stack| == 0 {
      return;
    }
    var x := stack[|stack| - 1];
    CloseTop(stack, b.open, T, F);
    stack' := stack[..|stack| - 1];
    root' := x;
    ok := true;
    ghost var closed := b.open[|b.open| - 1];
    ghost var rest := b.open[..|b.open| - 1];
    b' := Builder(AttachLast(rest, closed), Some(closed));
    T' := T[x := closed];
    F' := F + {x};
  }

  /** One pass of unmarshall's loop: the switch over the event's kind. */
  method Advance(stack: seq<XmlNode>, root: XmlNode?, ev: Event, ghost b: Builder, ghost T: map<XmlNode, Element>, ghost F: set<XmlNode>)
    returns (stack': seq<XmlNode>, root': XmlNode?, ok: bool, ghost b': Builder, ghost T': map<XmlNode, Element>, ghost F': set<XmlNode>)
    requires Mirrors(stack, root, b, T, F)
    modifies if stack == [] then {} else {stack[|stack| - 1]}
    ensures ok <==> Step(b, ev).Some?
    ensures ok ==> Step(b, ev) == Some(b') && Mirrors(stack', root', b', T', F')
    ensures forall o :: o in stack' ==> o in stack || fresh(o)
    ensures forall o :: o in F' ==> o in F || o in stack
  {
    root', ok, T', F' := root, true, T, F;
    if ev.Start? {
      stack', b' := StartStep(stack, root, ev, b, T, F);
    } else if ev.Chars? {
      stack' := stack;
      b' := TextStep(stack, root, ev, b, T, F);
    } else {
      stack', root', ok, b', T', F' := EndStep(stack, root, b, T, F);
    }
  }

  /**
   * unmarshall, over the tokenizer's events. ok is false exactly where the value builder
   * fails (an end tag with nothing open); otherwise the node returned heads, read off the
   * heap, exactly the element the value builder returns, and null where it returns none.
   */
  method Unmarshall(events: seq<Event>) returns (root: XmlNode?, ok: bool, ghost F: set<XmlNode>)
    ensures ok <==> Unmarshalled(events).Some?
    ensures ok && root == null ==> Unmarshalled(events) == Some(None)
    ensures ok && root != null ==> TreeIn(F, root) && Unmarshalled(events) == Some(Some(Snapshot(F, root)))
    ensures ok && root != null ==> root.Valid() && Closed(F)
    ensures forall n :: n in F ==> fresh(n)
  {
    var stack: seq<XmlNode> := [];
    root := null;
    F := {};
    ghost var b := Builder([], None);
    ghost var T: map<XmlNode, Element> := map[];
    var i := 0;
    while i < |events|
      invariant Progress(events, i, stack, root, b, T, F)
      invariant forall o :: o in stack ==> fresh(o)
      invariant forall o :: o in F ==> fresh(o)
    {
      var stepped;
      assert stack != [] ==> stack[|stack| - 1] in stack;
      stack, root, stepped, b, T, F := Consume(events, i, stack, root, b, T, F);
      if !stepped {
        return null, false, F;
      }
      i := i + 1;
    }
    Returned(events, stack, root, b, T, F);
    ok := true;
  }

  /** Unmarshall's loop invariant: the first i events are handled, on the nodes and by the value builder alike. */
  ghost predicate Progress(events: seq<Event>, i: nat, stack: seq<XmlNode>, root: XmlNode?, b: Builder, T: map<XmlNode, Element>, F: set<XmlNode>)
    reads stack, F
  {
    i <= |events| && Run(Builder([], None), events[..i]) == Some(b) && Mirrors(stack, root, b, T, F)
  }

  /** Once every event is handled, the root node read off the heap is what the value builder returns. */
  lemma Returned(events: seq<Event>, stack: seq<XmlNode>, root: XmlNode?, b: Builder, T: map<XmlNode, Element>, F: set<XmlNode>)
    requires Progress(events, |events|, stack, root, b, T, F)
    ensures Unmarshalled(events).Some?
    ensures root == null ==> Unmarshalled(events) == Some(None)
    ensures root != null ==> TreeIn(F, root) && Unmarshalled(events) == Some(Some(Snapshot(F, root)))
    ensures root != null ==> root.Valid() && Closed(F)
  {
    assert events[..|events|] == events;
    FrozenClosed(T, F);
    assert Unmarshalled(events) == Some(b.last);
    if root != null {
      assert TreeIn(F, root) && Snapshot(F, root) == T[root];
    }
  }

  /** The loop body of unmarshall: event i, handled on the nodes, as one more step of the builder's run. */
  method Consume(events: seq<Event>, i: nat, stack: seq<XmlNode>, root: XmlNode?, ghost b: Builder, ghost T: map<XmlNode, Element>, ghost F: set<XmlNode>)
    returns (stack': seq<XmlNode>, root': XmlNode?, ok: bool, ghost b': Builder, ghost T': map<XmlNode, Element>, ghost F': set<XmlNode>)
    requires i < |events| && Progress(events, i, stack, root, b, T, F)
    modifies if stack == [] then {} else {stack[|stack| - 1]}
    ensures !ok ==> Unmarshalled(events).None?
    ensures ok ==> Progress(events, i + 1, stack', root', b', T', F')
    ensures forall o :: o in stack' ==> o in stack || fresh(o)
    ensures forall o :: o in F' ==> o in F || o in stack
  {
    stack', root', ok, b', T', F' := Advance(stack, root, events[i], b, T, F);
    if ok {
      RunExtendsAt(events, i, b, b');
    } else {
      RunStopsAt(events, i, b);
    }
  }

  /** The run through the first i events, one event further. */
  lemma RunExtendsAt(events: seq<Event>, i: nat, b: Builder, b': Builder)
    requires i < |events| && Run(Builder([], None), events[..i]) == Some(b) && Step(b, events[i]) == Some(b')
    ensures Run(Builder([], None), events[..i + 1]) == Some(b')
  {
    SplitAround(events, i);
    RunExtends(events[..i], events[i], b, b');
  }

  /** The run through the first i events fails at event i, and so does the whole run. */
  lemma RunStopsAt(events: seq<Event>, i: nat, b: Builder)
    requires i < |events| && Run(Builder([], None), events[..i]) == Some(b) && Step(b, events[i]).None?
    ensures Run(Builder([], None), events).None? && Unmarshalled(events).None?
  {
    SplitAround(events, i);
    RunStops(events[..i], events[i], events[i + 1..], b);
  }

  /** A sequence is what comes before position i, the element at i, and what follows it. */
  lemma SplitAround(events: seq<Event>, i: nat)
    requires i < |events|
    ensures events[..i] + [events[i]] + events[i + 1..] == events
    ensures events[..i] + [events[i]] == events[..i + 1]
  {
  }

  /** One more step of a run. */
  lemma RunExtends(done: seq<Event>, ev: Event, b: Builder, b': Builder)
    requires Run(Builder([], None), done) == Some(b) && Step(b, ev) == Some(b')
    ensures Run(Builder([], None), done + [ev]) == Some(b')
  {
    RunConcat(Builder([], None), done, [ev]);
    RunOne(b, ev);
  }

  /** A step that fails makes the whole run fail, whatever follows. */
  lemma RunStops(done: seq<Event>, ev: Event, rest: seq<Event>, b: Builder)
    requires Run(Builder([], None), done) == Some(b) && Step(b, ev).None?
    ensures Run(Builder([], None), done + [ev] + rest).None?
  {
    var b0 := Builder([], None);
    assert Run(b0, done + [ev]).None? by {
      RunConcat(b0, done, [ev]);
      RunOne(b, ev);
    }
    RunConcat(b0, done + [ev], rest);
  }

}
