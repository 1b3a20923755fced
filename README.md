# HyperXML in Dafny

HyperXML is a small Java XML library. It has two parts:
- `XMLNode`, a mutable element;
- `HyperXML`, a codec that marshalls a node tree to XML text and unmarshalls XML text back into a node tree.

This project models both and proves what they promise.

**The node.** `XMLNode` becomes the class `XmlTree.XmlNode`.
- Its `prefix` and `name` are constants; its value, children and arguments are fields.
- The derived children index (`childrenMap`) and argument index (`argumentsMap`) are fields too.
- `Valid()` ties each index to the list it is built from.
- The list-changing operations (`addNode`, `addArgument`, `setValue`) are methods that keep `Valid()`.
- `getNodeAtPath` is the same segment-by-segment loop as in the original.
  - It is proved against a specification function `Resolve` over the children lists.
  - Each `*AtPath` helper states what it changes, and that nothing else changes.
- `Paths` models `String.split("/")`.
- `Strings` models `String.trim` and the tokenizer's white-space test.

**marshall** becomes the function `HyperXml.Marshall` over a value view `Element` of a node tree.
- It is the same recursion as the original: qualified name, arguments in order, a self-closing tag or an opening tag, the value, a newline before each child, and the closing tag.
- It is also described as a sequence of pieces (`Layout`), and proved equal to that layout rendered piece by piece.

**unmarshall** becomes the method `HyperXml.Unmarshall`.
- It runs over the events a streaming tokenizer reports (`Start`, `Chars`, `End`), with a stack of nodes, as in the original loop.
- On a start tag it creates the node, adds the namespace declarations and the attributes with `addArgument`, attaches the node to the current top, and pushes it.
- On text it sets the top's value to the trimmed text.
- On an end tag it pops and remembers the popped node.
- The method is proved equal to a functional builder (`Step`/`Run`/`Unmarshalled`):
  - the node it returns heads, read off the heap (`Snapshot`), exactly the element the builder returns;
  - it fails exactly where the builder fails, on an end tag with nothing open.

**The round trip** (`RoundTrip`). The tokenizer is modelled by the events it reports for marshall's output: a start and an end event per tag, and one characters event per run of text, with its white-space flag (`Tokens`, which merges the text pieces marshall writes next to each other). For every element that is "round-trip ready", those events, fed to the builder, give the element back.

unmarshall does not invert marshall for every tree, even one without characters that need escaping. The model follows the code, which gives an element back only when it is ready, because:
- the tokenizer hands over attribute local names only;
- a default-namespace declaration comes back under the key `xmlns:null`;
- an empty value is written as a self-closing tag and so comes back as null;
- values come back trimmed;
- a namespace-aware parser rejects a prefix that no enclosing element declares, and an empty declaration;
- a node without a prefix (the name-only constructor) is written with its bare name and comes back with the empty prefix "" instead of none (`NoPrefixComesBackEmpty`);
- a prefix or name that contains ':' is split at its first ':' when read back, so it does not come back as written.

## Model

| member | source | states |
|---|---|---|
| XmlTree.Lookup | src/main/java/io/github/vimalai/XMLNode.java:146-148 | a key is absent exactly when no pair carries it; a value found comes from a pair with that key |
| XmlTree.IndexedAgreesWithList | src/main/java/io/github/vimalai/XMLNode.java:146-163 | with distinct keys, `argumentsMap` (built one put per added pair) holds a key exactly when the list does, with that pair's value |
| XmlTree.WithArgumentFirstWins | src/main/java/io/github/vimalai/XMLNode.java:156-163 | adding a pair keeps keys distinct; the first value written under a key wins; every other key looks up as before |
| XmlTree.FirstNamed | src/main/java/io/github/vimalai/XMLNode.java:108-114 | null exactly when no child has the name; otherwise the child with that name at the first position where the name occurs |
| XmlTree.Named | src/main/java/io/github/vimalai/XMLNode.java:137-139 | the children with a given name: each is a child carrying that name, every child carrying it is among them, and there are no more of them than children |
| XmlTree.NamedAppend | src/main/java/io/github/vimalai/XMLNode.java:121-130 | appending a child adds it to the end of its own name group and to no other group |
| XmlTree.GroupedIsNamed | src/main/java/io/github/vimalai/XMLNode.java:121-139 | the children index built by the appends has a name exactly when some child has it, and maps it to the children with that name in document order |
| XmlTree.NamedHead | src/main/java/io/github/vimalai/XMLNode.java:108-114 | the head of a name group is the first child with that name, and the group is empty exactly when there is none |
| XmlTree.LookupConcat | src/main/java/io/github/vimalai/XMLNode.java:156-163 | in a list of pairs followed by more pairs, the earlier list decides a key it contains |
| XmlTree.XmlNode.Create | src/main/java/io/github/vimalai/XMLNode.java:62-70 | a valid node with the name, a null prefix, no value, no children, no arguments |
| XmlTree.XmlNode.WithPrefix | src/main/java/io/github/vimalai/XMLNode.java:77-85 | a valid node with the prefix and name, no value, no children, no arguments |
| XmlTree.XmlNode.WithValue | src/main/java/io/github/vimalai/XMLNode.java:93-101 | a valid node with the prefix, name and value, no children, no arguments |
| XmlTree.XmlNode.GetNode | src/main/java/io/github/vimalai/XMLNode.java:108-114 | looked up in `childrenMap`, the result is the first child with the name in document order, or null |
| XmlTree.XmlNode.GetNodeList | src/main/java/io/github/vimalai/XMLNode.java:137-139 | null exactly when no child has the name; otherwise every child with that name, in order, and never an empty list |
| XmlTree.XmlNode.AddNode | src/main/java/io/github/vimalai/XMLNode.java:121-130 | keeps the indexes valid; the children list gains the node at its end; its name group gains it at its end; the other groups, the value and the arguments are unchanged |
| XmlTree.XmlNode.GetArgument | src/main/java/io/github/vimalai/XMLNode.java:146-148 | looked up in `argumentsMap`, the result is the value of the pair with the key in the list, or null |
| XmlTree.XmlNode.AddArgument | src/main/java/io/github/vimalai/XMLNode.java:156-163 | true exactly when the key was absent; then the pair is appended, otherwise nothing changes; afterwards the key maps to the new value if added, else to the old one; keys stay distinct |
| XmlTree.XmlNode.SetValue | src/main/java/io/github/vimalai/XMLNode.java:32-34 | the value is replaced and nothing else changes |
| XmlTree.XmlNode.GetNodeAtPath | src/main/java/io/github/vimalai/XMLNode.java:170-187 | null for a null or empty path; otherwise the node reached by taking, for each segment of the split path in turn, the first child with that name; null as soon as a segment misses |
| XmlTree.XmlNode.AddNodeAtPath | src/main/java/io/github/vimalai/XMLNode.java:195-202 | true exactly when the path resolves; then only the resolved node changes, and it gains the new node as its last child; otherwise nothing changes; the tree stays closed and valid |
| XmlTree.XmlNode.GetValueAtPath | src/main/java/io/github/vimalai/XMLNode.java:209-215 | null when the path does not resolve, else the resolved node's value |
| XmlTree.XmlNode.SetValueAtPath | src/main/java/io/github/vimalai/XMLNode.java:223-230 | true exactly when the path resolves; then only the resolved node's value changes; otherwise nothing changes |
| XmlTree.XmlNode.GetArgumentAtPath | src/main/java/io/github/vimalai/XMLNode.java:239-246 | null when the path does not resolve, else the resolved node's argument under the key |
| XmlTree.XmlNode.AddArgumentAtPath | src/main/java/io/github/vimalai/XMLNode.java:255-262 | true exactly when the path resolves, even when the key was already there and nothing was added; only the resolved node's arguments can change, by addArgument's rule |
| XmlTree.ResolveConcat | src/main/java/io/github/vimalai/XMLNode.java:179-186 | resolving a path in two parts is resolving the first part and then the second from where it led |
| XmlTree.MissIsFinal | src/main/java/io/github/vimalai/XMLNode.java:180-184 | once a prefix of the path misses, the whole path misses |
| XmlTree.ResolveLast | src/main/java/io/github/vimalai/XMLNode.java:179-186 | a resolved node is the first child, named after the last segment, of the node the rest of the path leads to; later same-named siblings are never chosen |
| XmlTree.Resolve | src/main/java/io/github/vimalai/XMLNode.java:176-186 | the node the loop reaches from a start node by taking, per segment, the first child with that name: a node of the tree, named after the last segment when there is one; null only when some segment misses |
| XmlTree.ResolvePath | src/main/java/io/github/vimalai/XMLNode.java:170-187 | null for a null or empty path; otherwise the node reached along the split path, which is named after the path's last segment |
| Paths.Split | src/main/java/io/github/vimalai/XMLNode.java:175 | the split segments contain no '/'; for a non-empty path the last one is not empty; joined again they give the path without its trailing '/'s |
| Paths.JoinSegments | src/main/java/io/github/vimalai/XMLNode.java:175 | cutting at every '/' and joining again gives the input back |
| Paths.SplitOnlySlashes | src/main/java/io/github/vimalai/XMLNode.java:175 | a non-empty path made only of '/' splits into no segments at all |
| Strings.Trim | src/main/java/io/github/vimalai/HyperXML.java:87 | String.trim: the result is a slice of the input, everything cut off before and after it is a character at most U+0020, and it neither starts nor ends with such a character |
| Strings.IsWhiteSpace | src/main/java/io/github/vimalai/HyperXML.java:86 | text the tokenizer flags as white space is made only of characters String.trim removes |
| Strings.WhiteSpaceTrimsToNothing | src/main/java/io/github/vimalai/HyperXML.java:86-87 | text flagged as white space trims to the empty string |
| Strings.TrimAppendSpace | src/main/java/io/github/vimalai/HyperXML.java:87 | white space appended to a text leaves its trimmed form unchanged |
| Strings.TrimOfTrimmed | src/main/java/io/github/vimalai/HyperXML.java:87 | trim leaves trimmed text as it is, so trimming twice equals trimming once |
| Strings.TrimmedNotWhiteSpace | src/main/java/io/github/vimalai/HyperXML.java:86-87 | non-empty trimmed text is never reported as white space |
| HyperXml.FullName | src/main/java/io/github/vimalai/HyperXML.java:21 | the bare name when the prefix is absent or empty, else prefix, ':' and name |
| HyperXml.FullNameAsWritten | src/main/java/io/github/vimalai/HyperXML.java:21 | fails (null pointer) exactly when the prefix is null |
| HyperXml.NameOnlyNodeCannotBeMarshalled | src/main/java/io/github/vimalai/HyperXML.java:21 | a node from the name-only constructor makes the original fail, while the corrected name is the bare name |
| HyperXml.FullNameAgrees | src/main/java/io/github/vimalai/HyperXML.java:21 | wherever the original does not fail, the corrected name is the one it computes |
| HyperXml.Marshall | src/main/java/io/github/vimalai/HyperXML.java:19-44 | every result starts with '<' followed by the qualified name, and ends with a newline |
| HyperXml.MarshallIsLayout | src/main/java/io/github/vimalai/HyperXML.java:19-44 | marshall's text is the element's layout rendered piece by piece: opening or self-closing tag with the arguments in order, the value if not empty, each child after a newline, the closing tag, and a newline |
| HyperXml.MarshallChildrenIsLayout | src/main/java/io/github/vimalai/HyperXML.java:36-39 | the children's text is, for each child in order, a newline and its layout rendered |
| HyperXml.RenderSelfClosing | src/main/java/io/github/vimalai/HyperXML.java:22-29 | an element with no children and a null or empty value renders exactly as "<" + name + arguments + "/>\n" |
| HyperXml.RenderOpenClose | src/main/java/io/github/vimalai/HyperXML.java:30-42 | any other element renders as its opening tag, its value text, its children's text, its closing tag and a newline, in that order |
| HyperXml.ArgumentsText | src/main/java/io/github/vimalai/HyperXML.java:25 | the arguments' text is empty exactly when there are no arguments, and otherwise starts with a space |
| HyperXml.ArgumentsTextAppend | src/main/java/io/github/vimalai/HyperXML.java:25 | one more argument appends exactly its own ` key="value"` text after the others' |
| HyperXml.AddArgumentsFirstWins | src/main/java/io/github/vimalai/HyperXML.java:68-77 | a run of addArgument calls keeps the keys distinct and, for each key, the first value offered; a repeated key is dropped |
| HyperXml.AddArgumentsAppends | src/main/java/io/github/vimalai/HyperXML.java:68-77 | a run of addArgument calls keeps the pairs already there first, and every pair it holds was already there or offered |
| HyperXml.StartArgumentsFirstWins | src/main/java/io/github/vimalai/HyperXML.java:63-77 | a start tag's node has distinct keys, each with its first value among the namespace declarations followed by the attributes |
| HyperXml.Step | src/main/java/io/github/vimalai/HyperXML.java:62-94 | one event fails exactly when it is an end tag with nothing open; otherwise a start tag opens one more element, text keeps the depth, an end tag closes the top one and records it as the last closed |
| HyperXml.StepKeepsBelow | src/main/java/io/github/vimalai/HyperXML.java:62-94 | one event leaves the open elements below the top unchanged, keeps the tag of every element still open, and a start tag pushes a fresh element with no value and no children |
| HyperXml.Run | src/main/java/io/github/vimalai/HyperXML.java:59-95 | a run can fail only if some event is an end tag |
| HyperXml.RunDepth | src/main/java/io/github/vimalai/HyperXML.java:59-95 | after a run, the number of open elements has changed by the number of start tags minus the number of end tags |
| HyperXml.RunLast | src/main/java/io/github/vimalai/HyperXML.java:59-95 | after a run no element has been closed exactly when none had been before and no event is an end tag |
| HyperXml.RunSucceedsIffNoUnderflow | src/main/java/io/github/vimalai/HyperXML.java:59-95 | a run succeeds exactly when no prefix of the events closes more elements than were open |
| HyperXml.RunAbove | src/main/java/io/github/vimalai/HyperXML.java:59-95 | events that never bring the depth down to a given level succeed, leave every element below that level untouched and keep the tag of the one at it |
| HyperXml.OutermostReturned | src/main/java/io/github/vimalai/HyperXML.java:52-97 | for a well-nested document (a start tag, a body that closes all it opens and never more, the matching end tag, then only text) the body leaves exactly one element open, and unmarshall leaves nothing open and returns that outermost element, as the body left it, with the first start tag's prefix, name and arguments |
| HyperXml.Unmarshalled | src/main/java/io/github/vimalai/HyperXML.java:52-97 | unmarshall fails only if some event is an end tag, and returns an element only if some event is one |
| HyperXml.TextKeepsClosed | src/main/java/io/github/vimalai/HyperXML.java:85-89 | with nothing open, text events change nothing |
| HyperXml.RunConcat | src/main/java/io/github/vimalai/HyperXML.java:59-95 | the loop handles a sequence of events as one part and then the rest, stopping at the first failure |
| HyperXml.TextOnlyYieldsNothing | src/main/java/io/github/vimalai/HyperXML.java:55-96 | a sequence with only text events returns null |
| HyperXml.LastChunkWins | src/main/java/io/github/vimalai/HyperXML.java:85-89 | of two non-white-space text chunks inside an element, only the last survives |
| HyperXml.NewNode | src/main/java/io/github/vimalai/HyperXML.java:64-77 | a fresh valid node with the event's prefix and local name, no value and no children, whose arguments are the declarations, each under "xmlns:" + prefix, then the attributes, each added by addArgument |
| HyperXml.AttachChild | src/main/java/io/github/vimalai/HyperXML.java:79-81 | the new node becomes the last child of the top node, and every open node still mirrors its open element |
| HyperXml.PushOpen | src/main/java/io/github/vimalai/HyperXML.java:82 | pushing the attached node makes the stack mirror the open elements with the new element on top |
| HyperXml.OpenNode | src/main/java/io/github/vimalai/HyperXML.java:63-83 | after a start tag the stack gains one fresh node on top, mirroring the new open element, which holds the start tag's arguments |
| HyperXml.SetTopValue | src/main/java/io/github/vimalai/HyperXML.java:85-89 | the top node takes the value; the stack mirrors the open elements with the top one's value replaced |
| HyperXml.FreezeTop | src/main/java/io/github/vimalai/HyperXML.java:92 | the popped node heads an acyclic tree whose snapshot is exactly the element the builder closes, and every frozen node stays valid and recorded |
| HyperXml.CloseTop | src/main/java/io/github/vimalai/HyperXML.java:91-93 | after the pop, the popped node is recorded with its element; the rest of the stack mirrors the open elements, the new top holding the closed element as its last child |
| HyperXml.StartStep | src/main/java/io/github/vimalai/HyperXML.java:63-83 | the start-tag branch does on the heap what the builder's step does on values |
| HyperXml.TextStep | src/main/java/io/github/vimalai/HyperXML.java:85-89 | the text branch changes nothing when the stack is empty or the text is white space; otherwise it does the builder's step |
| HyperXml.EndStep | src/main/java/io/github/vimalai/HyperXML.java:91-93 | the end-tag branch fails exactly when the stack is empty and then changes nothing; otherwise it does the builder's step, pops exactly the top node, makes that node the root and adds it to the closed nodes |
| HyperXml.Advance | src/main/java/io/github/vimalai/HyperXML.java:60-94 | one pass of the loop fails exactly when the builder's step fails, and otherwise keeps the heap mirroring the builder; the stack gains only new nodes and the closed nodes gain only nodes popped off the stack |
| HyperXml.Consume | src/main/java/io/github/vimalai/HyperXML.java:59-94 | handling the next event fails only where the whole run fails; otherwise the builder's run extends by that event and the heap keeps mirroring it; no node enters the stack or the closed nodes except a new one or one from the stack |
| HyperXml.RunExtendsAt | src/main/java/io/github/vimalai/HyperXML.java:59-95 | the run through the first i events, followed by a successful step on event i, is the run through the first i+1 events |
| HyperXml.RunStopsAt | src/main/java/io/github/vimalai/HyperXML.java:59-95 | a step that fails on event i makes the whole run, and unmarshall, fail |
| HyperXml.FrozenClosed | src/main/java/io/github/vimalai/HyperXML.java:92 | the nodes popped so far form a closed set: each is valid and its children were popped too |
| HyperXml.Returned | src/main/java/io/github/vimalai/HyperXML.java:96 | once every event is handled, the node returned is null exactly when the builder closed nothing, and otherwise heads a tree whose snapshot is the last element closed, is valid, and lies in a closed set of valid nodes |
| HyperXml.Unmarshall | src/main/java/io/github/vimalai/HyperXML.java:52-97 | fails exactly when the builder fails; returns null exactly when no element was closed; otherwise returns a valid node heading an acyclic tree whose snapshot is the last element closed, inside a closed set of valid nodes, so the path operations apply to it; every node of that set is newly allocated, so it shares no node with a tree the caller already holds |
| RoundTrip.QNameSplits | src/main/java/io/github/vimalai/HyperXML.java:21 | a qualified name built from a colon-free prefix and name splits back into them |
| RoundTrip.SplitArguments | src/main/java/io/github/vimalai/HyperXML.java:25 | ready arguments are their declarations followed by their plain attributes; the tokenizer reports the first as namespaces and the second as attributes, and both come back as written |
| RoundTrip.DeclarationsRestore | src/main/java/io/github/vimalai/HyperXML.java:68-70 | without an "xmlns" key, every "xmlns:p" declaration comes back under the same key with the same value |
| RoundTrip.AttributesRestore | src/main/java/io/github/vimalai/HyperXML.java:73-77 | attribute keys without ':' come back unchanged as local names |
| RoundTrip.DeclarationsFirst | src/main/java/io/github/vimalai/HyperXML.java:68-77 | with the declarations first, declarations-then-attributes is the original argument order |
| RoundTrip.NoPrefixComesBackEmpty | src/main/java/io/github/vimalai/HyperXML.java:21 | a tag written for an element without a prefix is its bare name, which the tokenizer reports with the empty prefix and the local name unchanged |
| RoundTrip.DefaultNamespaceComesBackAsNull | src/main/java/io/github/vimalai/HyperXML.java:69 | a default namespace declaration "xmlns" comes back under the key "xmlns:null" |
| RoundTrip.AddFreshArguments | src/main/java/io/github/vimalai/HyperXML.java:68-77 | adding pairs whose keys are all new appends them in order |
| RoundTrip.StartArgumentsRestore | src/main/java/io/github/vimalai/HyperXML.java:63-77 | for ready arguments, the start handler rebuilds exactly the argument list marshall wrote |
| RoundTrip.StartRestores | src/main/java/io/github/vimalai/HyperXML.java:63-77 | the start event of a ready element's tag carries its prefix, its name and, once added, its arguments |
| RoundTrip.ValueStep | src/main/java/io/github/vimalai/HyperXML.java:85-89 | the value text of a ready element gives the open element its value back |
| RoundTrip.CloseStep | src/main/java/io/github/vimalai/HyperXML.java:91-93 | the closing tag and its newline close the element into its parent and record it as the last closed |
| RoundTrip.ElementRoundTrip | src/main/java/io/github/vimalai/HyperXML.java:59-95 | whatever is open, the events of a ready element rebuild it, close it into the innermost open element and record it as the last closed |
| RoundTrip.ChildrenRoundTrip | src/main/java/io/github/vimalai/HyperXML.java:37-39 | the events of the children, each after its newline, attach them in order to the innermost open element |
| RoundTrip.Coalesce | src/main/java/io/github/vimalai/HyperXML.java:85-89 | merging adjacent character events never lengthens the events and keeps the first event's kind; it keeps every start and end tag in order (`Tags`) and the text between consecutive tags as the concatenation of that run (`TextRuns`); no two character events are left next to each other, and each carries the white-space flag of its merged text |
| RoundTrip.CoalesceKeepsRun | src/main/java/io/github/vimalai/HyperXML.java:85-89 | when text events carry their true white-space flag and only the first of a run can be non-white, merging runs changes nothing unmarshall does |
| RoundTrip.EventsSettled | src/main/java/io/github/vimalai/HyperXML.java:19-44 | the events of marshall's output start with a start tag, and in every run of text only the first piece can be non-white |
| RoundTrip.UnmarshallMarshall | src/main/java/io/github/vimalai/HyperXML.java:19-97 | for a ready element (restorable and with every prefix declared), unmarshalling the tokens of its marshalled text, one event per run of text, leaves nothing open and returns that element; so does the same text split at marshall's pieces |

## Left out

- The StAX tokenizer (`XMLInputFactory`, `XMLStreamReader`, HyperXML.java:53-60) is not run. unmarshall takes the sequence of events it would report.
  - Malformed text, which makes the real parser throw, is not modelled.
  - The round trip models only what the tokenizer reports for marshall's own output: start and end events, and character data with its white-space flag.
- The tokenizer is taken to report each run of character data as one event (`RoundTrip.Tokens`). A parser may split a run into several events: when the split falls between marshall's pieces, `RoundTrip.CoalesceKeepsRun` shows nothing changes; a split inside a value is covered by `HyperXml.LastChunkWins` for one element, not by the round trip.
- Comments, processing instructions, CDATA sections, entity references and the document start and end events are not modelled: the switch in unmarshall (HyperXML.java:62-94) ignores every event other than start tag, characters and end tag.
- RoundTrip.UnmarshallMarshall: takes names to be valid XML names and text and values to need no escaping; the reserved prefixes "xml" and "xmlns" are not treated as predeclared.
- RoundTrip.UnmarshallMarshall: does not model the normalisation an XML parser applies: `\r\n` and `\r` in text come back as `\n`, and tab, newline and carriage return in attribute values come back as spaces, so such values do not round-trip; nor does it model the parser rejecting a declaration that rebinds the `xml` prefix or declares `xmlns` itself.
- HyperXml.AddArgumentsFirstWins: states which keys survive and with which value, and `HyperXml.AddArgumentsAppends` that pairs are only appended; that the added pairs keep the order in which they were offered is stated only for fresh keys, by `RoundTrip.AddFreshArguments`.
- marshall does not escape `<`, `&` or `"`. The round trip assumes the tokenizer reports text and argument values exactly as marshall wrote them. The entity decoding a real parser applies, and its errors on unescaped markup, are not modelled.
- Null keys, values and names in the Java API are not modelled: keys, names and attribute values are plain strings. A null prefix and a null value are `None`.
- `getNodeList` and the Lombok getters `getChildren` and `getArguments` (src/main/java/io/github/vimalai/XMLNode.java:39-46) return the live lists in the original, so a caller can change a children or arguments list or a name group without the matching index or list following, breaking what `Valid()` assumes. The model returns the lists' values; that aliasing is not captured.
- `addNode` performs no check against cycles or sharing. The *AtPath methods require the added node to come from a separate, closed set of nodes. `addNode` itself accepts any node.
- The reference comparison `path==""` (XMLNode.java:171) is modelled as a value comparison.
- `String.split` is modelled for a one-character, non-regex separator only, which is all the path code uses.
- Thread-safety: the original has none and claims none.
- The functional builder attaches a child to its parent when the child closes; the original attaches it when it opens. `HyperXml.Unmarshall` follows the original and is proved to yield the same tree.
- The value view (`Element`, `Snapshot`) is what marshall reads. `HyperXml.Marshall` takes an `Element` and not a node on the heap, so the heap-side marshall is the composition of `Snapshot` and `Marshall`.

## Findings

| source | as written | input that shows it | evidently intended | confidence | as-written member | corrected member |
|---|---|---|---|---|---|---|
| src/main/java/io/github/vimalai/HyperXML.java:21 | the qualified name calls `getPrefix().isEmpty()`, which throws on a null prefix | a node built with `new XMLNode("a")` (XMLNode.java:62-70), whose prefix is null, passed to `marshall` | a null prefix counts as no prefix, giving the bare name `a` | not executed | HyperXml.NameOnlyNodeCannotBeMarshalled | HyperXml.FullName |
