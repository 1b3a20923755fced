/**
 * The round trip between the codec's two halves, stated at the level of events: the streaming
 * tokenizer is modelled by what it reports for each piece of marshall's output, and those
 * events, fed to unmarshall's builder, give the element back.
 */
module RoundTrip {
  import opened Wrappers
  import opened XmlTree
  import opened HyperXml
  import Strings

  // ---------------------------------------------------------------------------
  // The tokenizer, as far as marshall's output is concerned.
  // ---------------------------------------------------------------------------

  /** The prefix part of a qualified name: the text before its first ':', or "" when it has none. */
  function QPrefix(q: string): string {
    if ':' !in q || q[0] == ':' then "" else [q[0]] + QPrefix(q[1..])
  }

  /** The local part of a qualified name: the text after its first ':', or all of it. */
  function QLocal(q: string): string {
    if ':' !in q then q else if q[0] == ':' then q[1..] else QLocal(q[1..])
  }

  /** A qualified name built from a colon-free prefix and local name splits back into them. */
  lemma {:induction false} QNameSplits(p: string, n: string)
    requires ':' !in p && ':' !in n
    ensures QPrefix(p + ":" + n) == p && QLocal(p + ":" + n) == n
  {
    if p != [] {
      assert (p + ":" + n)[1..] == p[1..] + ":" + n;
      QNameSplits(p[1..], n);
    } else {
      assert p + ":" + n == ":" + n;
    }
  }

  /** Attribute keys the tokenizer reports as namespace declarations instead of attributes. */
  predicate IsDeclarationKey(k: string) {
    k == "xmlns" || (|k| >= 6 && k[..6] == "xmlns:")
  }

  /** The namespace declarations among a start tag's attributes; "xmlns" alone declares the default namespace. */
  function NamespacesOf(args: seq<Argument>): seq<Namespace> {
    if args == [] then []
    else
      var k := args[0].key;
      (if k == "xmlns" then [Namespace(None, args[0].value)]
       else if IsDeclarationKey(k) then [Namespace(Some(k[6..]), args[0].value)]
       else []) + NamespacesOf(args[1..])
  }

  /** The other attributes, by local name. */
  function AttributesOf(args: seq<Argument>): seq<Argument> {
    if args == [] then []
    else
      (if IsDeclarationKey(args[0].key) then [] else [Argument(QLocal(args[0].key), args[0].value)]) +
      AttributesOf(args[1..])
  }

  /** The start event of a tag; a name without prefix is reported with the empty prefix. */
  function StartOf(q: string, args: seq<Argument>): Event {
    Start(Some(QPrefix(q)), QLocal(q), NamespacesOf(args), AttributesOf(args))
  }

  /** The events reported for one piece: a self-closing tag is a start followed by an end. */
  function ScanPiece(p: Piece): seq<Event> {
    match p
    case OpenTag(q, args) => [StartOf(q, args)]
    case EmptyTag(q, args) => [StartOf(q, args), End]
    case CloseTag(_) => [End]
    case Text(t) => [Chars(t, Strings.IsWhiteSpace(t))]
  }

  function Scan(ps: seq<Piece>): seq<Event> {
    if ps == [] then [] else ScanPiece(ps[0]) + Scan(ps[1..])
  }

  /** The events of marshall's output for an element. */
  function Events(e: Element): seq<Event> {
    Scan(Layout(e))
  }

  lemma {:induction false} ScanConcat(a: seq<Piece>, b: seq<Piece>)
    ensures Scan(a + b) == Scan(a) + Scan(b)
  {
    if a == [] {
      assert a + b == b;
    } else {
      assert (a + b)[1..] == a[1..] + b;
      ScanConcat(a[1..], b);
    }
  }

  lemma ScanOne(p: Piece)
    ensures Scan([p]) == ScanPiece(p)
  {
    assert Scan([p]) == ScanPiece(p) + Scan([]);
  }

  // ---------------------------------------------------------------------------
  // Which elements come back unchanged.
  // ---------------------------------------------------------------------------

  /**
   * Arguments that survive the trip: unique keys, the namespace declarations ("xmlns:" keys)
   * before every other argument, and no other key with a ':' or equal to "xmlns".
   */
  predicate ArgumentsReady(args: seq<Argument>) {
    DistinctKeys(args) &&
    (forall i :: 0 <= i < |args| ==> args[i].key != "xmlns" && (IsDeclarationKey(args[i].key) || ':' !in args[i].key)) &&
    (forall i, j :: 0 <= i < j < |args| && IsDeclarationKey(args[j].key) ==> IsDeclarationKey(args[i].key))
  }

  /**
   * An element marshall and the builder agree on: a prefix that is present (empty for none)
   * and a name without ':', a value that is absent or non-empty and already trimmed,
   * arguments as above, and the same for every child.
   */
  predicate Restorable(e: Element) {
    e.prefix.Some? && ':' !in e.prefix.value && ':' !in e.name &&
    (e.value.None? || (e.value.value != "" && Strings.IsTrimmed(e.value.value))) &&
    ArgumentsReady(e.arguments) &&
    forall i :: 0 <= i < |e.children| ==> Restorable(e.children[i])
  }

  /** The prefixes an argument list declares with "xmlns:p" keys. */
  function DeclaredPrefixes(args: seq<Argument>): set<string> {
    set i | 0 <= i < |args| && IsDeclarationKey(args[i].key) && args[i].key != "xmlns" :: args[i].key[6..]
  }

  /**
   * The namespace rules a namespace-aware parser enforces on marshall's output: every
   * non-empty prefix is declared by the element itself or by an ancestor (whose
   * declarations are `bound`), and every declaration names a non-empty prefix and a
   * non-empty namespace.
   */
  predicate PrefixesBound(bound: set<string>, e: Element)
    decreases e
  {
    var scope := bound + DeclaredPrefixes(e.arguments);
    (e.prefix.None? || e.prefix.value == "" || e.prefix.value in scope) &&
    (forall i :: 0 <= i < |e.arguments| && IsDeclarationKey(e.arguments[i].key) ==>
       e.arguments[i].key != "xmlns:" && e.arguments[i].value != "") &&
    forall i :: 0 <= i < |e.children| ==> PrefixesBound(scope, e.children[i])
  }

  /** An element whose marshalled text a namespace-aware parser reads back as that element. */
  predicate RoundTripReady(e: Element) {
    Restorable(e) && PrefixesBound({}, e)
  }

  function DeclarationPart(args: seq<Argument>): seq<Argument> {
    if args == [] then []
    else (if IsDeclarationKey(args[0].key) then [args[0]] else []) + DeclarationPart(args[1..])
  }

  function PlainPart(args: seq<Argument>): seq<Argument> {
    if args == [] then []
    else (if IsDeclarationKey(args[0].key) then [] else [args[0]]) + PlainPart(args[1..])
  }

  /** A ready argument list is its declarations, which the tokenizer reports as namespaces, then its attributes. */
  lemma SplitArguments(args: seq<Argument>)
    requires ArgumentsReady(args)
    ensures Declarations(NamespacesOf(args)) == DeclarationPart(args)
    ensures AttributesOf(args) == PlainPart(args)
    ensures args == DeclarationPart(args) + PlainPart(args)
  {
    DeclarationsRestore(args);
    AttributesRestore(args);
    DeclarationsFirst(args);
  }

  /** Without an "xmlns" key, every declaration comes back as the same key and value. */
  lemma {:induction false} DeclarationsRestore(args: seq<Argument>)
    requires forall i :: 0 <= i < |args| ==> args[i].key != "xmlns"
    ensures Declarations(NamespacesOf(args)) == DeclarationPart(args)
  {
    if args != [] {
      DeclarationsRestore(args[1..]);
      var k, tail := args[0].key, NamespacesOf(args[1..]);
      if IsDeclarationKey(k) {
        var ns := Namespace(Some(k[6..]), args[0].value);
        assert NamespaceKey(ns) == k by {
          assert k == "xmlns:" + k[6..];
        }
        assert NamespacesOf(args) == [ns] + tail;
        assert ([ns] + tail)[0] == ns && ([ns] + tail)[1..] == tail;
        assert Declarations([ns] + tail) == [args[0]] + Declarations(tail);
        assert DeclarationPart(args) == [args[0]] + DeclarationPart(args[1..]);
      } else {
        assert NamespacesOf(args) == tail;
        assert DeclarationPart(args) == DeclarationPart(args[1..]);
      }
    }
  }

  /** Attribute keys without ':' come back unchanged as local names. */
  lemma {:induction false} AttributesRestore(args: seq<Argument>)
    requires forall i :: 0 <= i < |args| ==> IsDeclarationKey(args[i].key) || ':' !in args[i].key
    ensures AttributesOf(args) == PlainPart(args)
  {
    if args != [] {
      AttributesRestore(args[1..]);
      if !IsDeclarationKey(args[0].key) {
        assert QLocal(args[0].key) == args[0].key;
      }
    }
  }

  /** With the declarations first, splitting them from the rest loses nothing and reorders nothing. */
  lemma {:induction false} DeclarationsFirst(args: seq<Argument>)
    requires forall i, j :: 0 <= i < j < |args| && IsDeclarationKey(args[j].key) ==> IsDeclarationKey(args[i].key)
    ensures args == DeclarationPart(args) + PlainPart(args)
  {
    if args != [] {
      var a, rest := args[0], args[1..];
      if IsDeclarationKey(a.key) {
        DeclarationsFirst(rest);
        assert args == [a] + rest;
      } else {
        NoDeclarations(args);
      }
    }
  }

  lemma {:induction false} NoDeclarations(args: seq<Argument>)
    requires forall i :: 0 <= i < |args| ==> !IsDeclarationKey(args[i].key)
    ensures DeclarationPart(args) == [] && PlainPart(args) == args
  {
    if args != [] {
      NoDeclarations(args[1..]);
    }
  }

  /**
   * Why an element without a prefix is not round-trip ready: marshall writes its bare name,
   * and the tokenizer reports a bare name with the empty prefix, so it comes back with
   * prefix "" rather than none.
   */
  lemma NoPrefixComesBackEmpty(n: string, args: seq<Argument>)
    requires ':' !in n
    ensures StartOf(FullName(None, n), args).prefix == Some("")
    ensures StartOf(FullName(None, n), args).localName == n
  {
  }

  /**
   * Why an "xmlns" key is not round-trip ready: the tokenizer reports the default namespace
   * with a null prefix, and the start handler records it under "xmlns:" + null, "xmlns:null".
   */
  lemma DefaultNamespaceComesBackAsNull(uri: string)
    ensures var args := [Argument("xmlns", uri)];
      StartArguments(NamespacesOf(args), AttributesOf(args)) == [Argument("xmlns:null", uri)]
  {
    var args := [Argument("xmlns", uri)];
    assert NamespacesOf(args) == [Namespace(None, uri)];
    assert AttributesOf(args) == [];
    var ns := Namespace(None, uri);
    assert NamespaceKey(ns) == "xmlns:null" by {
      assert "xmlns:" + "null" == "xmlns:null";
    }
    assert [ns][1..] == [];
    var decl := Argument("xmlns:null", uri);
    assert Declarations([ns]) == [decl];
    assert WithArgument([], decl.key, decl.value) == [decl];
    assert [decl][1..] == [];
    assert AddArguments([], [decl]) == AddArguments([decl], []);
  }

  /** Adding pairs whose keys are all new appends them, in order. */
  lemma {:induction false} AddFreshArguments(acc: seq<Argument>, pairs: seq<Argument>)
    requires DistinctKeys(acc + pairs)
    ensures AddArguments(acc, pairs) == acc + pairs
    decreases |pairs|
  {
    if pairs != [] {
      var p := pairs[0];
      assert Lookup(acc, p.key).None? by {
        forall i | 0 <= i < |acc|
          ensures acc[i].key != p.key
        {
          assert (acc + pairs)[i] == acc[i] && (acc + pairs)[|acc|] == p;
        }
      }
      assert WithArgument(acc, p.key, p.value) == acc + [p];
      assert acc + [p] + pairs[1..] == acc + pairs;
      AddFreshArguments(acc + [p], pairs[1..]);
    }
  }

  /** The builder gives a start tag exactly the arguments marshall wrote, in the same order. */
  lemma StartArgumentsRestore(args: seq<Argument>)
    requires ArgumentsReady(args)
    ensures StartArguments(NamespacesOf(args), AttributesOf(args)) == args
  {
    SplitArguments(args);
    var d, p := DeclarationPart(args), PlainPart(args);
    assert DistinctKeys([] + d) by {
      forall i, j | 0 <= i < j < |d|
        ensures d[i].key != d[j].key
      {
        assert args[i] == d[i] && args[j] == d[j];
      }
    }
    AddFreshArguments([], d);
    assert [] + d == d;
    AddFreshArguments(d, p);
  }

  /** The start event of an element's opening tag describes exactly the element, without value or children. */
  lemma StartRestores(e: Element)
    requires Restorable(e)
    ensures StartOf(FullName(e.prefix, e.name), e.arguments) ==
      Start(e.prefix, e.name, NamespacesOf(e.arguments), AttributesOf(e.arguments))
    ensures StartArguments(NamespacesOf(e.arguments), AttributesOf(e.arguments)) == e.arguments
  {
    var q := FullName(e.prefix, e.name);
    if e.prefix.value == "" {
      assert QPrefix(q) == "" && QLocal(q) == e.name;
    } else {
      QNameSplits(e.prefix.value, e.name);
    }
    StartArgumentsRestore(e.arguments);
  }

  // ---------------------------------------------------------------------------
  // The round trip.
  // ---------------------------------------------------------------------------

  /** The open elements after a run of elements closes inside the innermost one. */
  function AttachedAll(open: seq<Element>, cs: seq<Element>): seq<Element>
    requires open != []
  {
    var top := open[|open| - 1];
    open[..|open| - 1] + [top.(children := top.children + cs)]
  }

  lemma RunCons(b: Builder, ev: Event, rest: seq<Event>)
    ensures Run(b, [ev] + rest) == match Step(b, ev) case None => None case Some(b') => Run(b', rest)
  {
    assert ([ev] + rest)[0] == ev && ([ev] + rest)[1..] == rest;
  }

  /** The element as its start tag opens it: no value and no children yet. */
  function Opened(e: Element): Element {
    Element(e.prefix, e.name, None, e.arguments, [])
  }

  /** The element with its value back, before any of its children: what the start tag and the text leave open. */
  function Valued(e: Element): Element {
    Opened(e).(value := e.value)
  }

  /** The events of the text marshall writes between an opening tag and the first child. */
  function ValueEvents(e: Element): seq<Event> {
    Scan(if ValueText(e.value) == "" then [] else [Text(ValueText(e.value))])
  }

  const Newline: Event := Chars("\n", true)

  lemma EventsOfSelfClosing(e: Element)
    requires SelfClosing(e)
    ensures Events(e) == [StartOf(FullName(e.prefix, e.name), e.arguments), End, Newline]
  {
    var q := FullName(e.prefix, e.name);
    assert Strings.IsWhiteSpace("\n");
    ScanConcat([EmptyTag(q, e.arguments)], [Text("\n")]);
    ScanOne(EmptyTag(q, e.arguments));
    ScanOne(Text("\n"));
  }

  lemma EventsOfOpen(e: Element)
    requires !SelfClosing(e)
    ensures Events(e) ==
      [StartOf(FullName(e.prefix, e.name), e.arguments)] +
      (ValueEvents(e) + (Scan(ChildrenLayout(e.children)) + [End, Newline]))
  {
    var q := FullName(e.prefix, e.name);
    var vs := if ValueText(e.value) == "" then [] else [Text(ValueText(e.value))];
    var cl := ChildrenLayout(e.children);
    var tail := [CloseTag(q), Text("\n")];
    assert Layout(e) == [OpenTag(q, e.arguments)] + (vs + (cl + tail));
    ScanTail(cl, q);
    ScanConcat(vs, cl + tail);
    ScanConcat([OpenTag(q, e.arguments)], vs + (cl + tail));
    ScanOne(OpenTag(q, e.arguments));
  }

  /** The closing tag and the newline after it report an end and a white-space text. */
  lemma ScanTail(cl: seq<Piece>, q: string)
    ensures Scan(cl + [CloseTag(q), Text("\n")]) == Scan(cl) + [End, Newline]
  {
    assert Strings.IsWhiteSpace("\n");
    ScanConcat(cl, [CloseTag(q), Text("\n")]);
    ScanConcat([CloseTag(q)], [Text("\n")]);
    ScanOne(CloseTag(q));
    ScanOne(Text("\n"));
  }

  lemma ChildrenEvents(cs: seq<Element>)
    requires cs != []
    ensures Scan(ChildrenLayout(cs)) == [Newline] + (Events(cs[0]) + Scan(ChildrenLayout(cs[1..])))
  {
    assert Strings.IsWhiteSpace("\n");
    ScanConcat([Text("\n")], Layout(cs[0]) + ChildrenLayout(cs[1..]));
    ScanConcat(Layout(cs[0]), ChildrenLayout(cs[1..]));
    ScanOne(Text("\n"));
  }

  /** The start event pushes the element as opened. */
  lemma OpenStep(e: Element, b: Builder, rest: seq<Event>)
    requires Restorable(e)
    ensures Run(b, [StartOf(FullName(e.prefix, e.name), e.arguments)] + rest) ==
      Run(Builder(b.open + [Opened(e)], b.last), rest)
  {
    StartRestores(e);
    RunCons(b, StartOf(FullName(e.prefix, e.name), e.arguments), rest);
  }

  /** The value text, if any, gives the innermost element its value back. */
  lemma ValueStep(open: seq<Element>, last: Option<Element>, e: Element, rest: seq<Event>)
    requires Restorable(e)
    ensures Run(Builder(open + [Opened(e)], last), ValueEvents(e) + rest) ==
      Run(Builder(open + [Valued(e)], last), rest)
  {
    if ValueText(e.value) == "" {
      assert ValueEvents(e) == [];
      assert ValueEvents(e) + rest == rest;
      assert Valued(e) == Opened(e);
    } else {
      var v := e.value.value;
      ScanOne(Text(v));
      Strings.TrimmedNotWhiteSpace(v);
      Strings.TrimOfTrimmed(v);
      var b := Builder(open + [Opened(e)], last);
      assert b.open[..|b.open| - 1] == open;
      RunCons(b, Chars(v, false), rest);
    }
  }

  /** The end tag closes the innermost element; the newline after it changes nothing. */
  lemma CloseStep(open: seq<Element>, last: Option<Element>, e: Element)
    ensures Run(Builder(open + [e], last), [End, Newline]) == Some(Builder(AttachLast(open, e), Some(e)))
  {
    var b := Builder(open + [e], last);
    var b1 := Builder(AttachLast(open, e), Some(e));
    assert Step(b, End) == Some(b1) by {
      assert b.open[..|b.open| - 1] == open;
    }
    assert Step(b1, Newline) == Some(b1) by {
      assert Strings.IsWhiteSpace("\n");
    }
    assert [End, Newline] == [End] + [Newline];
    RunCons(b, End, [Newline]);
    RunCons(b1, Newline, []);
  }

  /** Closing one child and then the rest is closing them all. */
  lemma AttachedAllCons(open: seq<Element>, cs: seq<Element>)
    requires open != [] && cs != []
    ensures AttachLast(open, cs[0]) != []
    ensures AttachedAll(AttachLast(open, cs[0]), cs[1..]) == AttachedAll(open, cs)
  {
    var top := open[|open| - 1];
    var open' := AttachLast(open, cs[0]);
    assert open'[..|open'| - 1] == open[..|open| - 1];
    assert top.children + [cs[0]] + cs[1..] == top.children + cs;
  }

  /**
   * Whatever is open, the events of a round-trip-ready element build exactly that element,
   * close it (as the last child of the innermost open element, if any) and record it as
   * the last element closed.
   */
  lemma {:induction false} ElementRoundTrip(e: Element, b: Builder)
    requires Restorable(e)
    ensures Run(b, Events(e)) == Some(Builder(AttachLast(b.open, e), Some(e)))
    decreases e, 2
  {
    if SelfClosing(e) {
      SelfClosingRoundTrip(e, b);
    } else {
      OpenRoundTrip(e, b);
    }
  }

  lemma SelfClosingRoundTrip(e: Element, b: Builder)
    requires Restorable(e) && SelfClosing(e)
    ensures Run(b, Events(e)) == Some(Builder(AttachLast(b.open, e), Some(e)))
  {
    EventsOfSelfClosing(e);
    assert [StartOf(FullName(e.prefix, e.name), e.arguments), End, Newline] ==
      [StartOf(FullName(e.prefix, e.name), e.arguments)] + [End, Newline];
    OpenStep(e, b, [End, Newline]);
    assert Opened(e) == e;
    CloseStep(b.open, b.last, e);
  }

  /** The start tag and the value text of an element open it with its value. */
  lemma OpenAndValue(e: Element, b: Builder, rest: seq<Event>)
    requires Restorable(e)
    ensures Run(b, [StartOf(FullName(e.prefix, e.name), e.arguments)] + (ValueEvents(e) + rest)) ==
      Run(Builder(b.open + [Valued(e)], b.last), rest)
  {
    OpenStep(e, b, ValueEvents(e) + rest);
    ValueStep(b.open, b.last, e, rest);
  }

  /** Once the children are attached to the valued element, the element itself is on top. */
  lemma ChildrenComplete(open: seq<Element>, e: Element)
    ensures AttachedAll(open + [Valued(e)], e.children) == open + [e]
  {
    assert (open + [Valued(e)])[..|open|] == open;
    assert Valued(e).(children := [] + e.children) == e;
  }

  lemma {:induction false} OpenRoundTrip(e: Element, b: Builder)
    requires Restorable(e) && !SelfClosing(e)
    ensures Run(b, Events(e)) == Some(Builder(AttachLast(b.open, e), Some(e)))
    decreases e, 1
  {
    var cl := Scan(ChildrenLayout(e.children));
    EventsOfOpen(e);
    OpenAndValue(e, b, cl + [End, Newline]);
    var b2 := Builder(b.open + [Valued(e)], b.last);
    RunConcat(b2, cl, [End, Newline]);
    ChildrenRoundTrip(e.children, b2);
    ChildrenComplete(b.open, e);
    CloseStep(b.open, if e.children == [] then b2.last else Some(e.children[|e.children| - 1]), e);
  }

  /** The events of a run of children close each of them, in order, inside the innermost open element. */
  lemma {:induction false} ChildrenRoundTrip(cs: seq<Element>, b: Builder)
    requires b.open != []
    requires forall i :: 0 <= i < |cs| ==> Restorable(cs[i])
    ensures Run(b, Scan(ChildrenLayout(cs))) ==
      Some(Builder(AttachedAll(b.open, cs), if cs == [] then b.last else Some(cs[|cs| - 1])))
    decreases cs, 0
  {
    if cs == [] {
      var top := b.open[|b.open| - 1];
      assert top.(children := top.children + cs) == top;
      assert AttachedAll(b.open, cs) == b.open;
    } else {
      var rest := Scan(ChildrenLayout(cs[1..]));
      ChildrenEvents(cs);
      assert Strings.IsWhiteSpace("\n");
      RunCons(b, Newline, Events(cs[0]) + rest);
      RunConcat(b, Events(cs[0]), rest);
      ElementRoundTrip(cs[0], b);
      AttachedAllCons(b.open, cs);
      ChildrenRoundTrip(cs[1..], Builder(AttachLast(b.open, cs[0]), Some(cs[0])));
    }
  }

  // ---------------------------------------------------------------------------
  // Runs of character data.
  // ---------------------------------------------------------------------------

  /** The events other than characters: start and end tags, in order. */
  function Tags(evs: seq<Event>): seq<Event> {
    if evs == [] then []
    else (if evs[0].Chars? then [] else [evs[0]]) + Tags(evs[1..])
  }

  /**
   * The character data between the tags: for each gap (before the first tag, between two
   * tags, after the last) the texts of its characters events joined in order.
   */
  function TextRuns(evs: seq<Event>): (r: seq<string>)
    ensures |r| == |Tags(evs)| + 1
  {
    if evs == [] then [""]
    else
      var t := TextRuns(evs[1..]);
      if evs[0].Chars? then [evs[0].text + t[0]] + t[1..] else [""] + t
  }

  lemma TagsCons(x: Event, evs: seq<Event>)
    ensures Tags([x] + evs) == (if x.Chars? then [] else [x]) + Tags(evs)
    ensures TextRuns([x] + evs) ==
      if x.Chars? then [x.text + TextRuns(evs)[0]] + TextRuns(evs)[1..] else [""] + TextRuns(evs)
  {
    assert ([x] + evs)[0] == x && ([x] + evs)[1..] == evs;
  }

  /** Every characters event's white-space flag is the white-space test of its own text. */
  predicate TextFlagged(evs: seq<Event>) {
    forall i :: 0 <= i < |evs| && evs[i].Chars? ==> evs[i].isWhiteSpace == Strings.IsWhiteSpace(evs[i].text)
  }

  /** No two characters events are next to each other. */
  predicate TextSeparated(evs: seq<Event>) {
    forall i :: 0 <= i < |evs| - 1 ==> !(evs[i].Chars? && evs[i + 1].Chars?)
  }

  /**
   * The events with every run of adjacent characters events merged into one, as a tokenizer
   * reports a run of character data; white space is judged on the reported text. The tags
   * stay as they are, in order, and each gap between them holds the same text.
   */
  function Coalesce(evs: seq<Event>): (r: seq<Event>)
    ensures |r| <= |evs|
    ensures evs != [] ==> r != [] && (r[0].Chars? <==> evs[0].Chars?) && (!evs[0].Chars? ==> r[0] == evs[0])
    ensures TextSeparated(r) && TextFlagged(r)
    ensures Tags(r) == Tags(evs) && TextRuns(r) == TextRuns(evs)
  {
    if evs == [] then []
    else
      var rest := Coalesce(evs[1..]);
      if evs[0].Chars? && rest != [] && rest[0].Chars? then
        var t := evs[0].text + rest[0].text;
        CoalesceMerged(evs, rest);
        [Chars(t, Strings.IsWhiteSpace(t))] + rest[1..]
      else
        CoalescePlain(evs, rest);
        if evs[0].Chars? then [Chars(evs[0].text, Strings.IsWhiteSpace(evs[0].text))] + rest
        else [evs[0]] + rest
  }

  /** A characters event merged into the run that follows it keeps the tags and the text between them. */
  lemma CoalesceMerged(evs: seq<Event>, rest: seq<Event>)
    requires evs != [] && evs[0].Chars? && rest != [] && rest[0].Chars?
    requires Tags(rest) == Tags(evs[1..]) && TextRuns(rest) == TextRuns(evs[1..])
    requires TextSeparated(rest) && TextFlagged(rest)
    ensures var t := evs[0].text + rest[0].text;
      var r := [Chars(t, Strings.IsWhiteSpace(t))] + rest[1..];
      Tags(r) == Tags(evs) && TextRuns(r) == TextRuns(evs) && TextSeparated(r) && TextFlagged(r)
  {
    var t := evs[0].text + rest[0].text;
    MergedText(evs[0].text, rest[0], rest[1..], TextRuns(evs[1..]));
    MergedShape(Chars(t, Strings.IsWhiteSpace(t)), rest);
  }

  /** The merged event in front of what follows the run: same tags, and the first gap's text joined. */
  lemma MergedText(a: string, w: Event, more: seq<Event>, runs: seq<string>)
    requires w.Chars? && runs == TextRuns([w] + more)
    ensures var t := a + w.text;
      Tags([Chars(t, Strings.IsWhiteSpace(t))] + more) == Tags([w] + more) &&
      TextRuns([Chars(t, Strings.IsWhiteSpace(t))] + more) == [a + runs[0]] + runs[1..]
  {
    var t := a + w.text;
    var u := TextRuns(more);
    TagsCons(w, more);
    TagsCons(Chars(t, Strings.IsWhiteSpace(t)), more);
    assert runs == [w.text + u[0]] + u[1..];
    assert t + u[0] == a + (w.text + u[0]);
  }

  /** An event with a true flag in front of the tail of separated, flagged text stays separated and flagged. */
  lemma MergedShape(x: Event, rest: seq<Event>)
    requires rest != [] && TextSeparated(rest) && TextFlagged(rest)
    requires x.Chars? ==> x.isWhiteSpace == Strings.IsWhiteSpace(x.text)
    requires rest[0].Chars?
    ensures TextSeparated([x] + rest[1..]) && TextFlagged([x] + rest[1..])
  {
    var r := [x] + rest[1..];
    assert forall i :: 1 <= i < |r| ==> r[i] == rest[i];
  }

  /** An event that starts no merge, put in front of the merged rest, keeps the tags and the text between them. */
  lemma CoalescePlain(evs: seq<Event>, rest: seq<Event>)
    requires evs != [] && !(evs[0].Chars? && rest != [] && rest[0].Chars?)
    requires Tags(rest) == Tags(evs[1..]) && TextRuns(rest) == TextRuns(evs[1..])
    requires TextSeparated(rest) && TextFlagged(rest)
    ensures var x := if evs[0].Chars? then Chars(evs[0].text, Strings.IsWhiteSpace(evs[0].text)) else evs[0];
      var r := [x] + rest;
      Tags(r) == Tags(evs) && TextRuns(r) == TextRuns(evs) && TextSeparated(r) && TextFlagged(r)
  {
    var x := if evs[0].Chars? then Chars(evs[0].text, Strings.IsWhiteSpace(evs[0].text)) else evs[0];
    var r := [x] + rest;
    TagsCons(x, rest);
    assert forall i :: 1 <= i < |r| ==> r[i] == rest[i - 1];
  }

  /**
   * Events whose runs of text start with the only text that is not white space, if any:
   * each characters event knows whether it is white space, and one that is not follows a
   * tag, not other text.
   */
  predicate TextSettled(evs: seq<Event>) {
    (forall i :: 0 <= i < |evs| && evs[i].Chars? ==> evs[i].isWhiteSpace == Strings.IsWhiteSpace(evs[i].text)) &&
    (forall i :: 0 < i < |evs| && evs[i].Chars? && !evs[i].isWhiteSpace ==> !evs[i - 1].Chars?)
  }

  lemma SettledTail(evs: seq<Event>)
    requires evs != [] && TextSettled(evs)
    ensures TextSettled(evs[1..])
  {
    assert forall i :: 0 <= i < |evs| - 1 ==> evs[1..][i] == evs[i + 1];
  }

  /** The merged run that starts with white space is white space throughout. */
  lemma {:induction false} CoalesceWhiteHead(evs: seq<Event>)
    requires evs != [] && TextSettled(evs) && evs[0].Chars? && evs[0].isWhiteSpace
    ensures Coalesce(evs)[0].Chars? && Coalesce(evs)[0].isWhiteSpace && Strings.IsWhiteSpace(Coalesce(evs)[0].text)
  {
    var rest := Coalesce(evs[1..]);
    if rest != [] && rest[0].Chars? {
      assert evs[1] == evs[1..][0];
      SettledTail(evs);
      CoalesceWhiteHead(evs[1..]);
    }
  }

  /** Merging a text run whose only non-white text comes first changes nothing the builder does. */
  lemma {:induction false} CoalesceKeepsRun(b: Builder, evs: seq<Event>)
    requires TextSettled(evs)
    ensures Run(b, Coalesce(evs)) == Run(b, evs)
    decreases |evs|
  {
    if evs != [] {
      var rest := Coalesce(evs[1..]);
      SettledTail(evs);
      RunCons(b, evs[0], evs[1..]);
      assert evs == [evs[0]] + evs[1..];
      if evs[0].Chars? && rest != [] && rest[0].Chars? {
        var w := rest[0];
        assert evs[1] == evs[1..][0];
        CoalesceWhiteHead(evs[1..]);
        var t := evs[0].text + w.text;
        MergedStep(b, evs[0].text, w.text);
        RunCons(b, Chars(t, Strings.IsWhiteSpace(t)), rest[1..]);
        var b1 := Step(b, evs[0]).value;
        CoalesceKeepsRun(b1, evs[1..]);
        assert rest == [w] + rest[1..];
        RunCons(b1, w, rest[1..]);
      } else {
        RunCons(b, evs[0], rest);
        if Step(b, evs[0]).Some? {
          CoalesceKeepsRun(Step(b, evs[0]).value, evs[1..]);
        }
      }
    }
  }

  /** White space after a text changes nothing the text's event does. */
  lemma MergedStep(b: Builder, t0: string, w: string)
    requires Strings.IsWhiteSpace(w)
    ensures Step(b, Chars(t0 + w, Strings.IsWhiteSpace(t0 + w))) == Step(b, Chars(t0, Strings.IsWhiteSpace(t0)))
  {
    var t := t0 + w;
    assert forall i :: 0 <= i < |t0| ==> t[i] == t0[i];
    assert forall i :: |t0| <= i < |t| ==> t[i] == w[i - |t0|];
    if !Strings.IsWhiteSpace(t0) {
      Strings.TrimAppendSpace(t0, w);
    }
  }

  /** Text settles when the pieces do: nothing at the seam puts non-white text after text. */
  lemma SettledConcat(a: seq<Event>, b: seq<Event>)
    requires TextSettled(a) && TextSettled(b)
    requires a != [] && b != [] && b[0].Chars? && !b[0].isWhiteSpace ==> !a[|a| - 1].Chars?
    ensures TextSettled(a + b)
  {
    assert forall i :: 0 <= i < |a| ==> (a + b)[i] == a[i];
    assert forall i :: |a| <= i < |a + b| ==> (a + b)[i] == b[i - |a|];
  }

  /** The events of marshall's output for an element start with its start tag and have settled text. */
  lemma {:induction false} EventsSettled(e: Element)
    ensures Events(e) != [] && Events(e)[0].Start?
    ensures TextSettled(Events(e))
    decreases e, 1
  {
    var start := StartOf(FullName(e.prefix, e.name), e.arguments);
    if SelfClosing(e) {
      EventsOfSelfClosing(e);
      SelfClosingSettled(start);
    } else {
      var cl := Scan(ChildrenLayout(e.children));
      EventsOfOpen(e);
      ChildrenSettled(e.children);
      OpenSettled(e, cl);
      var x := [start] + (ValueEvents(e) + (cl + [End, Newline]));
      assert Events(e) == x;
      assert x[0] == start;
    }
  }

  lemma SelfClosingSettled(start: Event)
    requires start.Start?
    ensures TextSettled([start, End, Newline])
  {
    assert Strings.IsWhiteSpace("\n");
  }

  /** Start tag, value text, the children's settled events, end tag and newline: settled text. */
  lemma OpenSettled(e: Element, cl: seq<Event>)
    requires cl == [] || cl[0] == Newline
    requires TextSettled(cl)
    ensures TextSettled([StartOf(FullName(e.prefix, e.name), e.arguments)] + (ValueEvents(e) + (cl + [End, Newline])))
  {
    var start := [StartOf(FullName(e.prefix, e.name), e.arguments)];
    var vs := ValueEvents(e);
    var tail := [End, Newline];
    assert TextSettled(tail) by {
      assert Strings.IsWhiteSpace("\n");
    }
    if ValueText(e.value) != "" {
      ScanOne(Text(ValueText(e.value)));
    }
    SettledConcat(cl, tail);
    SettledConcat(vs, cl + tail);
    SettledConcat(start, vs + (cl + tail));
  }

  /** The events of the children's part start with the newline before the first child and have settled text. */
  lemma {:induction false} ChildrenSettled(cs: seq<Element>)
    ensures Scan(ChildrenLayout(cs)) == [] || Scan(ChildrenLayout(cs))[0] == Newline
    ensures TextSettled(Scan(ChildrenLayout(cs)))
    decreases cs, 0
  {
    if cs != [] {
      ChildrenEvents(cs);
      EventsSettled(cs[0]);
      ChildrenSettled(cs[1..]);
      var x := [Newline] + (Events(cs[0]) + Scan(ChildrenLayout(cs[1..])));
      NewlineChildSettled(Events(cs[0]), Scan(ChildrenLayout(cs[1..])));
      assert Scan(ChildrenLayout(cs)) == x;
      assert x[0] == Newline;
    }
  }

  /** A newline, a child's events (which start with a start tag) and the later siblings' settled events: settled text. */
  lemma NewlineChildSettled(child: seq<Event>, rest: seq<Event>)
    requires child != [] && child[0].Start? && TextSettled(child) && TextSettled(rest)
    requires rest == [] || rest[0] == Newline
    ensures TextSettled([Newline] + (child + rest))
  {
    assert TextSettled([Newline]) by {
      assert Strings.IsWhiteSpace("\n");
    }
    SettledConcat(child, rest);
    SettledConcat([Newline], child + rest);
  }

  /** The events a tokenizer reports for marshall's output of an element: one characters event per run of text. */
  function Tokens(e: Element): seq<Event> {
    Coalesce(Events(e))
  }

  /**
   * unmarshall after marshall: the events of a round-trip-ready element, fed to a fresh
   * builder, leave nothing open and return that element; whether each run of text comes as
   * one event or split at the pieces marshall wrote makes no difference.
   */
  lemma UnmarshallMarshall(e: Element)
    requires RoundTripReady(e)
    ensures Run(Builder([], None), Tokens(e)) == Some(Builder([], Some(e)))
    ensures Unmarshalled(Tokens(e)) == Some(Some(e))
    ensures Unmarshalled(Events(e)) == Some(Some(e))
  {
    ElementRoundTrip(e, Builder([], None));
    EventsSettled(e);
    CoalesceKeepsRun(Builder([], None), Events(e));
  }
}
