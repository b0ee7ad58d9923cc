# pugixml and the HTTP request parser: a verified model

A Dafny model of the XML library in `httpd/pugixml.cpp` (parsing, document, strings and memory, XPath, output)
and of the HTTP request parser in `httpd/request_parser.cpp`, with proofs of what they promise.
`dafny verify dfyconfig.toml` checks all of it.

## What is modelled

**XPath.** `XmlTree` and `Axes` define documents, document order and the axes of section 2.2 of XPath 1.0.
`Steps` has the stackless loops of `step_fill`, `DocumentOrder`, `Sorting` and `NodeSets` the comparator, the
quicksort, removal of repeats and the order tags. `XPathSyntax` and `XPathSemantics` say what an expression means,
for all its functions, for the program and for XPath 1.0; `Readings` says when the two agree, `Departures` where they do not.
`StringFunctions` and `TextFunctions` have the loops behind the string functions.
`Optimizer` and `OptimizerCorrect` treat the query rewriter as a function, `AstNode` and `AstMeaning` as the program has it,
working in place on linked nodes. `Evaluator` has the recursive evaluation with its modes, early stops and order tags;
`Query` and `LinkedQuery` put rewriter and evaluator together, the latter from linked nodes to the answer.
`Precedence` and `ExpressionParser` have the grammar of expressions and the precedence climbing parser.

**The document.** `DomLinks` and `AttrLinks` have the pointers of child and attribute lists, whose previous links are cyclic.
`TreeEdits`, `Document` and `CopyTree` have insertion, moves, removal and copying, which may put a subtree inside itself;
`LinkedDocument` ties the attribute pointers to them. `Strings` has names and values: owned heap blocks or pointers into the
parsed buffer, shared by copies. `PageAllocator` has the memory pages. `OrderKept`, `BufferOrder` and `LiveDocument` show that
comparing buffer addresses is sound: `LiveDocument` is a document with its strings, and each of its operations keeps all
invariants. `SeveralDocuments` has the comparison of nodes of different documents. `LiveTree` has the tree with the names and values that the strings hold, which is what queries and output read.

**Text.** `Utf` has the decoders and encoders, `TextSpec` and `TextInPlace` the conversion of references, white space and line ends
in the buffer with its moving gap, `TextAhead`, `ParseMarks`, `ParseInPlace`, `ParseOrder` and `ParsedOrder` the tree parser
that writes terminators into its buffer, and `Loading` the document built from what was parsed. `AttributeSpaces` compares
normalised attribute values with XML 1.0. `Writer`, `XmlText` and `XmlOutput` have buffered, escaping output, `XmlParse` and
`XmlRoundTrip` the parser as a state machine and the round trip.

**HTTP.** `HttpParser` has the state machine, `HttpGrammar` the language that it accepts, `HttpFolding` the folded header values.

## Main results

- `LinkedQuery.XPathQuery`: a query is optimised in place and evaluated. The answer is that of the original expression in the
  program's reading, and that of XPath 1.0 as far as the query cannot notice the difference. `Readings.ReadingsExact` says for
  every document, and for every choice of what queries may use, whether all such queries have the answers of XPath 1.0: exactly if
  no element repeats an attribute name (should `attribute::name` be used), none has `xml:lang` (should `lang()` be), no node has an ID
  (should `id()` be), and no query relates a node set and a boolean by `<`, `<=`, `>` or `>=`.
- `OptimizerCorrect.OptimizerExact`: the rewriter keeps every value of every expression on a document if and only if a stated
  condition on its attributes holds; without it, the direct attribute lookup is the rewrite that fails.
- `LiveDocument`: starting from a parsed buffer (`Loading.Load`), after any operations on the document the tree with its names and
  values, as queries and output see it, has changed as the operations say and in no other way, no string is freed twice or shared
  unawares, and buffer addresses agree with document order wherever they are compared.
- `ParseInPlace.Reparse`, `Loading.Reload`: printing a tree, parsing the print in place and reading the strings out of the buffer,
  or out of the document built on it, gives the tree.
- `HttpGrammar.AcceptedExactly`: the parser accepts exactly the requests of its grammar, however the input is cut into chunks.
- `Precedence.ParsedExactly`: precedence climbing is exact for the grammar of expressions, which is therefore unambiguous.

XPath 1.0 is taken on the library's own tree: names are compared as they are written, adjacent text nodes are not joined,
declarations and document types are nodes, characters are code units, and there are no namespace nodes.

## Where the program differs from what one may expect

- `attribute::name` selects only the first attribute of that name. Elements with repeated names are accepted by the parser.
  `Readings.RepeatedNameShows` has the failing query; `Readings.ReadingsExact` the condition.
- `lang()` is false at attributes, where section 4.3 of XPath 1.0 looks at the ancestors as well (pugixml.cpp:9206). `Departures.LangExact`
  says when it is right, `Departures.LangExample` has a document and a node at which it is not.
- `<`, `<=`, `>` and `>=` between a node set and a boolean compare node by node with the number of the boolean (pugixml.cpp:8473-8542);
  section 3.4 of XPath 1.0 converts the node set to a boolean. `Departures.RelationExact` and `Departures.RelationExample`.
- `id()` selects nothing, whatever the document type declares (pugixml.cpp:9733), and the namespace axis is empty (pugixml.cpp:9764).
  `Readings.ReadingsExact` says when the first matters; queries with namespace steps are outside every comparison with XPath 1.0.
- The comparator for document order says that an attribute comes before itself (`DocumentOrder.DocumentOrderLess`).
- Between documents the comparison goes by buffer addresses for some nodes and by the addresses of the roots for others.
  `SeveralDocuments.SeveralExact`: it is an order exactly if the buffers lie in the order of the roots; `SeveralDocuments.SeveralExample`
  has two documents with three nodes that go in a circle.
- A folded HTTP header value is joined without the space that the line break stands for in section 2.2 of RFC 2616.
  `HttpFolding.FoldingExact`: the request that is returned is the standard's exactly if no line of it begins with white space.
  `HttpFolding.FoldExample` has a request whose value comes out wrong, `HttpFolding.WordsExact` says when at least the words are right.
- The digits of an HTTP version are added up before the code of '0' is taken off. `HttpGrammar.VersionsExact` says for which accepted
  requests this overflows an int, `HttpGrammar.OverflowExample` has one.
- A normalised attribute value keeps spaces that references bring where section 3.3.3 of XML 1.0 drops them, and drops other white space
  that they bring at the end. `AttributeSpaces.NormalizedExact` says when, `AttributeSpaces.ReferenceExample` has such a value.
- A reference to character zero cuts the string it stands in: `Loading.Load` says that the document reads as it was parsed exactly if
  no string has a zero in it.

## Model

| member | source | states |
|---|---|---|
| Axes.AxesPartition | httpd/pugixml.cpp:8763-8954 | for every node and every node of the document, exactly one of self, ancestor, descendant, following and preceding holds (section 2.2 of XPath 1.0) |
| Axes.DescendantIs | httpd/pugixml.cpp:8813-8842 | the stackless preorder listing below a node is the descendant axis in document order |
| Axes.FollowingIs | httpd/pugixml.cpp:8865-8892 | what comes after the subtree of a node is its following axis in document order |
| Axes.AncestorIs | httpd/pugixml.cpp:8892-8907 | the climb to the root is the ancestor axis in reverse document order |
| Axes.PrecedingIs | httpd/pugixml.cpp:8908-8942 | what comes before a node, ancestors left out, is its preceding axis in reverse document order |
| Axes.ChildIs | httpd/pugixml.cpp:8763-8775 | the child list is the child axis in document order |
| Axes.FollowingSiblingIs | httpd/pugixml.cpp:8795-8806 | later siblings are the following-sibling axis in document order |
| Axes.PrecedingSiblingIs | httpd/pugixml.cpp:8795-8812 | earlier siblings are the preceding-sibling axis in reverse document order |
| Steps.StepFill | httpd/pugixml.cpp:8763-9046 | each axis loop terminates and appends exactly the nodes of the axis that pass the node test, in axis order, or only the first of them when it may stop early |
| Steps.FillPreceding | httpd/pugixml.cpp:8908-8942 | the backward stackless walk lists exactly the preceding axis, skipping the ancestors |
| Steps.NodeIsAncestor | httpd/pugixml.cpp:6965-6970 | the climb answers whether one node is in the subtree of the other |
| DocumentOrder.NodeIsBefore | httpd/pugixml.cpp:6922-6963 | the climb to a common ancestor answers which of two nodes of a document has the smaller preorder position |
| DocumentOrder.DocumentOrderLess | httpd/pugixml.cpp:7003-7055 | within a document, the comparison of two nodes or attributes is document order; of two equal ones it is true for an attribute and false for a node, as the loop over later attributes finds |
| DocumentOrder.DocLessTotal | httpd/pugixml.cpp:7003-7055 | document order is total and irreflexive on items of a document |
| Sorting.Sort | httpd/pugixml.cpp:6433-6461 | the quicksort returns a sorted permutation for every strict total order, touches nothing outside its range, and recurses at most as deep as the logarithm of the length |
| Sorting.InsertionSort | httpd/pugixml.cpp:6322-6352 | insertion sort with an unguarded inner loop sorts its range and never reads before it |
| Sorting.Partition | httpd/pugixml.cpp:6354-6405 | the three-way partition terminates with the smaller elements, those equal to the pivot and the larger ones, in this order |
| Sorting.Unique | httpd/pugixml.cpp:6294-6320 | in-place removal of neighbouring repeats |
| Sorting.DedupStrict | httpd/pugixml.cpp:6294-6320 | on a sorted range, removing neighbouring repeats leaves every element once |
| NodeSets.GetOrder | httpd/pugixml.cpp:7679-7693 | the tag found by comparing neighbours only is truthful, also when entries are repeated |
| NodeSets.First | httpd/pugixml.cpp:7718-7737 | the first entry in document order, found according to the tag |
| NodeSets.RemoveDuplicates | httpd/pugixml.cpp:7823-7829 | afterwards every entry is there exactly once and none is lost, whether the set was unsorted or tagged as ordered |
| OptimizerCorrect.OptExprSame | httpd/pugixml.cpp:9825-9887 | optimising an expression never changes its value, for every document, context node, position and size, on every document that the rewrites fit; which these are, OptimizerExact says |
| OptimizerCorrect.OptSetSame | httpd/pugixml.cpp:9825-9887 | the same for node set expressions |
| OptimizerCorrect.OptimizerExact | httpd/pugixml.cpp:9880-9886 | the optimiser keeps every value on a document if and only if attributes of one name in one element have one value, or attribute::name means the first attribute of that name only; the direct attribute lookup is the only rewrite that needs this; id() is taken as empty, as the program has it |
| OptimizerCorrect.PosinvIgnoresPosition | httpd/pugixml.cpp:9889-9918 | an expression classified as position invariant has the same value for every position and size |
| OptimizerCorrect.FuseSame | httpd/pugixml.cpp:9852-9866 | descendant-or-self::node()/child::x with position invariant predicates selects what descendant::x selects, and likewise for the other axes |
| OptimizerCorrect.DropPositionSame | httpd/pugixml.cpp:9831-9837 | [position() = e] and [e] hold in the same contexts when e is a number |
| OptimizerCorrect.TableSame | httpd/pugixml.cpp:9868-9878 | translating through the 128-entry table equals translating by search |
| AstNode.Ast.Optimize | httpd/pugixml.cpp:9825-9887 | the in-place rewrite of linked nodes, children first, leaves the tree that the rewriting function gives |
| AstNode.Ast.IsPosinvExpr | httpd/pugixml.cpp:9889-9918 | the recursive search over linked nodes decides position invariance |
| AstMeaning.OptRepExpr | httpd/pugixml.cpp:9825-9887 | rewriting the linked nodes of an expression gives the linked nodes of the optimised expression |
| AstMeaning.OptimizeExpression | httpd/pugixml.cpp:9825-9887 | in-place optimisation turns a representation of an expression into one of the optimised expression |
| Evaluator.EvalNodeSet | httpd/pugixml.cpp:9697-9823 | in the program's reading every node set is free of repeats and truthfully tagged; in full mode it is the whole meaning, in any mode it is empty only if the meaning is, in first mode it contains the first node of the meaning; attribute names may be repeated |
| Evaluator.StepDo | httpd/pugixml.cpp:9048-9092 | a step with its predicates, early stops and order tags meets the same contract |
| Evaluator.EvalFilter | httpd/pugixml.cpp:9716-9731 | a filter, which sorts unless its predicate ignores positions, meets the same contract |
| Evaluator.ApplyPredicateEach | httpd/pugixml.cpp:8544-8594 | predicates compact the set in place and keep exactly the nodes at which they hold, or the first of them |
| Evaluator.ApplyPredicateConst | httpd/pugixml.cpp:8596-8622 | a constant predicate is computed once and keeps the node at that position |
| Evaluator.EvalBoolean | httpd/pugixml.cpp:9140-9283 | the boolean value of an expression is the conversion of its meaning in the program's reading |
| Evaluator.EvalNumber | httpd/pugixml.cpp:9285-9429 | the numeric value of an expression is the conversion of its meaning in the program's reading |
| Evaluator.EvalString | httpd/pugixml.cpp:9474-9695 | the string value of an expression is the conversion of its meaning in the program's reading, all string functions included; node sets are evaluated no further than their first node |
| Evaluator.CompareEquality | httpd/pugixml.cpp:8386-8466 | = and != on all combinations of types are the existential comparison of section 3.4 of XPath 1.0 |
| Evaluator.CompareRelation | httpd/pugixml.cpp:8473-8542 | <, <=, > and >= on all combinations of types; a node set is compared node by node with the number of the other side, a boolean included |
| EvalFacts.StepItemsDirection | httpd/pugixml.cpp:8763-9046 | a step lists its nodes in document order on forward axes and in reverse on the others |
| EvalFacts.KeepConstant | httpd/pugixml.cpp:8596-8622 | a numeric constant predicate keeps the node at that position if the number is whole and in range, and otherwise nothing |
| Query.EvaluateNodeSet | httpd/pugixml.cpp:11334-11349 | an optimised query returns exactly the nodes that the original expression means in the program's reading, each once and truthfully tagged, and those of XPath 1.0 on every document on which ReadingsExact says that what the query uses is not noticed |
| Query.EvaluateNode | httpd/pugixml.cpp:11351-11366 | the node returned is the first in document order of what the original expression means in the program's reading, and that of XPath 1.0 on every document on which ReadingsExact says that what the query uses is not noticed |
| TextFunctions.StringOf | httpd/pugixml.cpp:6848-6895 | the string value of a node, gathered by a stackless walk |
| TextFunctions.TranslateBuffer | httpd/pugixml.cpp:7435-7453 | in-place translation equals the pure one; the write position never passes the read position |
| TextFunctions.TableGenerate | httpd/pugixml.cpp:7455-7487 | the table is refused exactly if a character is outside ASCII, and is otherwise the table of the translation |
| TextFunctions.TranslateTableBuffer | httpd/pugixml.cpp:7489-7515 | the branch-free table loop equals translation by table |
| NodeSets.Sort | httpd/pugixml.cpp:7695-7716 | whatever the tag, the set is put into document order or, on request, into its reverse, and keeps its entries |
| Readings.ReadingsExact | httpd/pugixml.cpp:9048-9770 | for every document and every choice of what queries may use (attribute::name, lang(), relations of a node set and a boolean, id()), the program's reading and XPath 1.0 give all such node set queries the same nodes in every context if and only if no element repeats an attribute name, none has xml:lang, no node has an ID, as far as the queries can ask for these, and none relates a node set and a boolean; namespace steps are excluded |
| Readings.RepeatedNameShows | httpd/pugixml.cpp:9048-9058 | on an element with two attributes of one name, the query attribute::name has more nodes in XPath 1.0 than for the program |
| Readings.SameSet | httpd/pugixml.cpp:9048-9770 | a query that cannot notice the differences has the same nodes in both readings, in every context |
| Departures.LangExact | httpd/pugixml.cpp:9204-9232 | lang() answers as section 4.3 of XPath 1.0 does if and only if the context is not an attribute or the nearest xml:lang at or above its element does not match |
| Departures.LangExample | httpd/pugixml.cpp:9204-9232 | at the attribute of an element with xml:lang, lang('en') is true in XPath 1.0 and false for the program |
| Departures.SetLessExact | httpd/pugixml.cpp:8473-8542 | a node set less than a boolean: comparing node by node agrees with section 3.4 of XPath 1.0 if and only if a condition on the numbers of the nodes holds, given for each boolean, with the empty set and NaN covered |
| Departures.BoolLessExact | httpd/pugixml.cpp:8473-8542 | the same for a boolean less than a node set |
| Departures.RelationExact | httpd/pugixml.cpp:8473-8542 | for all four relations and all operands: both readings agree if and only if the operands are not a node set and a boolean, or the condition holds |
| Departures.RelationExample | httpd/pugixml.cpp:8473-8542 | with one text node 0, node() < true() is true for the program and false in XPath 1.0 |
| Query.EvaluateBoolean | httpd/pugixml.cpp:11275-11287 | an optimised boolean query has the value of the original expression in the program's reading, and that of XPath 1.0 on every document on which ReadingsExact says that what the query uses is not noticed |
| Query.EvaluateNumber | httpd/pugixml.cpp:11289-11302 | an optimised numeric query has the value of the original expression in the program's reading, and that of XPath 1.0 on every document on which ReadingsExact says that what the query uses is not noticed |
| Query.EvaluateString | httpd/pugixml.cpp:11304-11332 | an optimised string query has the value of the original expression in the program's reading, and that of XPath 1.0 on every document on which ReadingsExact says that what the query uses is not noticed |
| LinkedQuery.XPathQuery.constructor | httpd/pugixml.cpp:11235-11261 | the linked nodes of an expression, optimised in place, represent the optimised expression; the expression they came from has the types that evaluation relies on |
| LinkedQuery.XPathQuery.EvaluateNodeSet | httpd/pugixml.cpp:11334-11349 | evaluating the optimised linked nodes returns exactly the nodes that the original expression means in the program's reading, and those of XPath 1.0 where the query cannot notice the difference |
| LinkedQuery.XPathQuery.EvaluateNode | httpd/pugixml.cpp:11351-11366 | the same for the first node in document order |
| LinkedQuery.XPathQuery.EvaluateBoolean | httpd/pugixml.cpp:11275-11287 | the same for the boolean of any expression |
| LinkedQuery.XPathQuery.EvaluateNumber | httpd/pugixml.cpp:11289-11302 | the same for the number of any expression |
| LinkedQuery.XPathQuery.EvaluateString | httpd/pugixml.cpp:11304-11332 | the same for the string of any expression |
| StringFunctions.NormalizeBuffer | httpd/pugixml.cpp:7409-7433 | normalising white space in place leaves the words of the text with one space between them; the write position never passes the read position |
| StringFunctions.GatheredWords | httpd/pugixml.cpp:7409-7433 | gathering characters one by one, a space for each run of white space that is neither first nor last, gives the words joined by spaces |
| StringFunctions.FromPosition | httpd/pugixml.cpp:9567-9588 | substring() with two arguments selects the characters whose positions are not less than the rounded number, for every number, NaN and the infinities included |
| StringFunctions.BetweenPositions | httpd/pugixml.cpp:9590-9615 | substring() with three arguments selects the characters whose positions p satisfy round(b) <= p < round(b) + round(c), with NaN and infinities as in section 4.2 of XPath 1.0 |
| StringFunctions.InheritedNearest | httpd/pugixml.cpp:9212-9230 | the climb finds the value of the nearest node, the start or above it, that has such an attribute, and of no other |
| StringFunctions.InLanguage | httpd/pugixml.cpp:9204-9232 | at a node: the nearest xml:lang value is the argument or begins with it before a hyphen, in any case of ASCII letters; at an attribute: false, which is right exactly if the nearest xml:lang at or above its element does not match |
| StringFunctions.UriOf | httpd/pugixml.cpp:7336-7407 | namespace-uri() is the value of the nearest declaration for the prefix; the default namespace does not apply to attributes |
| Precedence.ParsedExactly | httpd/pugixml.cpp:10564-10740 | precedence climbing accepts a token list with a result exactly if the result is the tree of the grammar of section 3 of XPath 1.0 that yields these tokens; so the grammar is unambiguous |
| ExpressionParser.XPathParser.ParseExpression | httpd/pugixml.cpp:10564-10740 | the recursive descent over the tokens finds the tree of the grammar if there is one, and rejects every other token list |
| DomLinks.Dom.AppendNode | httpd/pugixml.cpp:627-646 | linking a last child: the pointers, with the cyclic previous link of the first child, spell out the child list with the new one at its end |
| DomLinks.Dom.PrependNode | httpd/pugixml.cpp:648-664 | the same for a first child |
| DomLinks.Dom.InsertNodeAfter | httpd/pugixml.cpp:666-681 | the same behind a given child |
| DomLinks.Dom.InsertNodeBefore | httpd/pugixml.cpp:683-698 | the same before a given child |
| DomLinks.Dom.RemoveNode | httpd/pugixml.cpp:700-717 | the pointers spell out the child list without the removed child, which has no links left |
| AttrLinks.AttrStore.Append | httpd/pugixml.cpp:719-736 | the links of the attribute list, whose previous links are cyclic and which has none to its element, spell out the list with a new last attribute; the lists of all other nodes are as before |
| AttrLinks.AttrStore.Prepend | httpd/pugixml.cpp:738-752 | the same with a new first attribute |
| AttrLinks.AttrStore.InsertAfter | httpd/pugixml.cpp:754-764 | the same with an attribute behind a given one |
| AttrLinks.AttrStore.InsertBefore | httpd/pugixml.cpp:766-776 | the same with an attribute before a given one |
| AttrLinks.AttrStore.Remove | httpd/pugixml.cpp:778-791 | the links spell out the list without the attribute; all other lists are as before |
| AttrLinks.AttrStore.IsAttributeOf | httpd/pugixml.cpp:3676-3683 | the walk along the next links decides whether the attribute belongs to the node |
| Document.XmlDocument.InsertChild | httpd/pugixml.cpp:4978-5060 | a child is inserted exactly if the kinds of node and the place allow it; one child list gains one new leaf and nothing else changes |
| Document.XmlDocument.AllowMove | httpd/pugixml.cpp:3699-3721 | the climb allows a move exactly if the kinds of node do and the target is not below the moved node |
| Document.XmlDocument.MoveChild | httpd/pugixml.cpp:5130-5184 | a move happens exactly if it is allowed; one child list loses the node, one gains it, the document stays a tree |
| Document.XmlDocument.RemoveChild | httpd/pugixml.cpp:5207-5215 | exactly the nodes below the removed one go and none of them keeps a pointer |
| Document.XmlDocument.InsertAttribute | httpd/pugixml.cpp:4880-4938 | one attribute list gains one new attribute at the place, or nothing changes |
| Document.XmlDocument.RemoveAttribute | httpd/pugixml.cpp:5191-5200 | one attribute list loses the attribute, or nothing changes |
| LinkedDocument.LinkedDocument.InsertAttribute | httpd/pugixml.cpp:4880-4938 | the pointers of all attribute lists spell out the attributes of the tree before and after; one list gains one attribute at the place, exactly if it is allowed |
| LinkedDocument.LinkedDocument.RemoveAttribute | httpd/pugixml.cpp:5191-5200 | the same; one list loses the attribute, exactly if it is one of the node's |
| LinkedDocument.LinkedDocument.InsertChild | httpd/pugixml.cpp:4978-5060 | a new node has an empty attribute list, all others keep theirs |
| LinkedDocument.LinkedDocument.RemoveChild | httpd/pugixml.cpp:5207-5215 | the attribute lists of the subtree are freed, all others keep theirs |
| LinkedDocument.LinkedDocument.MoveChild | httpd/pugixml.cpp:5130-5184 | a move touches no attribute link |
| CopyTree.CopyChild | httpd/pugixml.cpp:3742-3802 | a copy of a subtree, even one placed inside that subtree, has the value that the subtree had before, and every other node is as before |
| LinkedDocument.LinkedDocument.CopyChild | httpd/pugixml.cpp:3742-3802 | the copies get attribute lists of their own, linked one by one, all others keep theirs |
| OrderKept.ItemsOrder | httpd/pugixml.cpp:7003-7055 | edits that leave the order of the common children of all common nodes alone leave document order of common items alone |
| Strings.Store.SetString | httpd/pugixml.cpp:1736-1798 | the string reads as the source afterwards and every other name and value of the document reads as before, whether memory is reused, freed or newly allocated |
| Strings.Store.NodeCopyString | httpd/pugixml.cpp:3723-3740 | a copied string reads as its source; a buffer string is shared, with both headers marked for good |
| Strings.Store.DestroyObject | httpd/pugixml.cpp:589-625 | exactly the heap blocks that the object owns are freed, and every string that is left reads as before |
| Strings.OneOwner | httpd/pugixml.cpp:1736-1798 | in every sound state each live heap string has exactly one owner |
| BufferOrder.ShortcutSound | httpd/pugixml.cpp:6972-7001 | where the comparison uses buffer addresses at all, a smaller address is an earlier item |
| BufferOrder.Compare | httpd/pugixml.cpp:7003-7055 | the comparison with the address shortcut is document order |
| BufferOrder.RunSound | httpd/pugixml.cpp:6972-7055 | in every state of every run of steps that starts in buffer order, the address shortcut agrees with document order |
| SeveralDocuments.BeforeElsewhere | httpd/pugixml.cpp:6898-6963 | climbing from nodes of different documents, however deep they are, compares the addresses of the roots |
| SeveralDocuments.Compare | httpd/pugixml.cpp:6972-7055 | the comparison on items of several documents: by buffer addresses if both have one, else by document order in one document, else by the addresses of the roots |
| SeveralDocuments.LessTotal | httpd/pugixml.cpp:7003-7055 | of two different items of any documents exactly one is less |
| SeveralDocuments.SeveralExact | httpd/pugixml.cpp:6972-7055 | the comparison is transitive on the items of several documents if and only if the buffers of those that have strings in them lie in the order of their roots |
| SeveralDocuments.SeveralExample | httpd/pugixml.cpp:6972-7055 | two documents and three items, each less than the next, in a circle |
| LiveDocument.LiveDocument.AddressesOrder | httpd/pugixml.cpp:6972-7055 | in every live document, wherever two addresses are compared, the smaller one is first in the document order that queries use |
| LiveDocument.LiveDocument.SetText | httpd/pugixml.cpp:4568-4580 | setting a name or a value of a live document: it reads as asked, everything else as before, strings stay sound and in buffer order, and the tree with its names and values has exactly this name or value replaced |
| LiveDocument.LiveDocument.InsertChild | httpd/pugixml.cpp:4978-5060 | inserting a child keeps all strings, their soundness and buffer order, and the tree with its names and values gains exactly this node; a declaration is named xml |
| LiveDocument.LiveDocument.InsertAttribute | httpd/pugixml.cpp:4880-4938 | inserting a named attribute keeps all other strings, their soundness and buffer order, and the tree with its names and values gains exactly this attribute with its name |
| LiveDocument.LiveDocument.RemoveAttribute | httpd/pugixml.cpp:5191-5200 | removing an attribute frees its own strings only and keeps buffer order, and the tree with its names and values loses exactly this attribute |
| LiveDocument.LiveDocument.MoveChild | httpd/pugixml.cpp:5130-5184 | a move is recorded, after which addresses are not compared any more, and the tree with its names and values has the node moved and nothing else changed |
| LiveDocument.LiveDocument.RemoveChild | httpd/pugixml.cpp:5207-5215 | removing a subtree frees exactly the strings of its nodes and attributes and keeps buffer order, and the tree with its names and values loses exactly this subtree |
| LiveDocument.LiveDocument.CopyChild | httpd/pugixml.cpp:5072-5128 | a copied subtree reads as its source did, name by name and value by value, shares its buffer strings, and keeps buffer order, and the tree with its names and values gains a subtree of the value that the source had, even inside the source, and nothing else changes |
| LiveTree.FullWf | httpd/pugixml.cpp:4568-4580 | names and values change nothing about which items a document has |
| LiveTree.FullSet | httpd/pugixml.cpp:1736-1798 | if one string reads otherwise and all others as before, the tree with its names and values has exactly this one replaced |
| LiveTree.ValueWritten | httpd/pugixml.cpp:3454-3661 | output depends on nothing but the names and values of the subtree, so a copy is written as its source is |
| Loading.Load | httpd/pugixml.cpp:2630-2856 | the document built from a parsed buffer is well-formed, has the nodes that were parsed, its strings are sound and in buffer order; what it says is what was parsed if and only if no string has a zero in it |
| Loading.Reload | httpd/pugixml.cpp:2630-2856 | loading the print of a tree gives a live document that says the same |
| ParseMarks.ReadExact | httpd/pugixml.cpp:2630-2856 | the strings that can be read from the buffer are those that were parsed if and only if none has a zero in it |
| ParsedOrder.ParsedSound | httpd/pugixml.cpp:2630-2856 | the strings of a parsed buffer end inside it and no two overlap |
| ParsedOrder.ParsedInBufferOrder | httpd/pugixml.cpp:2630-2856 | a parsed document is in buffer order |
| PageAllocator.Allocator.AllocateMemory | httpd/pugixml.cpp:353-364 | a block comes from the last page, from a new last page or from a page of its own; it overlaps no live block |
| PageAllocator.Allocator.AllocateOob | httpd/pugixml.cpp:454-491 | a new page is linked last for a small block and before the last one for a large block |
| PageAllocator.Allocator.DeallocateMemory | httpd/pugixml.cpp:366-399 | the block goes; its page is released exactly if that was its last block and it is not the last page, which is reset instead |
| PageAllocator.Allocator.AllocateString | httpd/pugixml.cpp:401-429 | a string block with its header, found again as long as it lives |
| PageAllocator.Allocator.DeallocateString | httpd/pugixml.cpp:431-452 | the 16-bit fields of the header lead back to the page and the size that were allocated, also for sizes that do not fit |
| PageAllocator.Empties | httpd/pugixml.cpp:366-399 | the counters of used and freed bytes meet exactly when the last live block of the page goes |
| TextInPlace.ConvertText | httpd/pugixml.cpp:2051-2122 | the loop over character data, references and line ends, with the gap closed piece by piece, leaves the text that the specification gives, never reading behind the terminator |
| TextInPlace.StrconvEscape | httpd/pugixml.cpp:1842-1980 | a reference is replaced by its character, anything else that begins with an ampersand stays |
| TextInPlace.StrconvPcdata | httpd/pugixml.cpp:2051-2102 | the converted text stands zero-terminated where the original began; before it and behind its delimiter nothing changes |
| TextInPlace.StrconvAttribute | httpd/pugixml.cpp:2178-2271 | an attribute value, which has to end with the quote it began with; references, line ends and white space are converted as the options say |
| TextInPlace.StrconvNormalized | httpd/pugixml.cpp:2126-2176 | a normalised attribute value: white space at its ends is gone, each run of it inside is one space, and nothing outside the value changes |
| AttributeSpaces.NormalizedExact | httpd/pugixml.cpp:2126-2176 | the normalised value is that of section 3.3.3 of XML 1.0 if and only if the text converted run by run has, up to the white space at its end, no space at its start and no two in a row, and that white space is spaces |
| AttributeSpaces.PlainNormalized | httpd/pugixml.cpp:2126-2176 | without references the normalised value is always that of XML 1.0 |
| AttributeSpaces.RunsSqueezed | httpd/pugixml.cpp:2126-2176 | converting white space run by run or one by one gives the same once runs of spaces are squeezed |
| AttributeSpaces.ReferenceExample | httpd/pugixml.cpp:2126-2176 | a value that begins with a reference to the space keeps this space, which XML 1.0 drops |
| TextInPlace.StrconvSection | httpd/pugixml.cpp:1995-2049 | the same for comments and CDATA sections |
| TextSpec.PieceShrinks | httpd/pugixml.cpp:1842-1980 | no reference is replaced by more bytes than it takes, so conversion in place never overruns |
| TextAhead.ConvertSame | httpd/pugixml.cpp:1842-2271 | what a conversion gives depends only on the text from its start on |
| Utf.DecodeUtf8Block | httpd/pugixml.cpp:1032-1092 | the decoder with its aligned ASCII fast path hands on the codes of the plain decoder, at any address |
| Utf.DecodeUtf16Block | httpd/pugixml.cpp:1094-1136 | the same for UTF-16; lone surrogates are skipped |
| Utf.ConvertUtf16ToUtf8 | httpd/pugixml.cpp:1547-1570 | counting first and writing then fills the allocated memory exactly |
| Utf.AsWide | httpd/pugixml.cpp:1711-1733 | the same from UTF-8 to two-byte characters |
| Utf.Utf16RoundTrip | httpd/pugixml.cpp:840-1136 | from UTF-16 to UTF-8 and back is the identity on well-formed text |
| Writer.GetValidLength | httpd/pugixml.cpp:3038-3052 | the cut lies before an unfinished sequence of at most four bytes, or nowhere |
| Writer.BufferedWriter.WriteString | httpd/pugixml.cpp:3194-3217 | whatever the state of the buffer, the string is appended to the output; no sequence is split between two conversions |
| Writer.BufferedWriter.WriteBuffer | httpd/pugixml.cpp:3179-3192 | the same for text of known length, longer than the buffer or not |
| Writer.BufferedWriter.Flush | httpd/pugixml.cpp:3115-3138 | what has arrived is the conversion of everything written |
| Writer.WholeCut | httpd/pugixml.cpp:3038-3052 | a text cut before a lead byte is converted piece by piece to what it is converted to as a whole |
| XmlText.TextOutputEscaped | httpd/pugixml.cpp:3318-3357 | special characters are written as references, all others in runs as they are |
| XmlText.EscapeBack | httpd/pugixml.cpp:1842-2271 | a printed text or attribute value is read back as it was, for every text without zeros |
| XmlOutput.NodeOutput | httpd/pugixml.cpp:3454-3661 | the stackless walk writes each node's start and end tag around its children |
| XmlRoundTrip.RoundTrip | httpd/pugixml.cpp:2630-2856 | parsing what was printed gives the tree back: elements with proper names, no empty or adjacent text; text outside elements as a fragment only |
| XmlOutput.WrittenParsed | httpd/pugixml.cpp:3454-3661 | what is written for a document parses back to it |
| ParseInPlace.ParseBuffer | httpd/pugixml.cpp:2630-2856 | the parser working on its buffer accepts what the state machine accepts, and every name and value stands in the buffer as the machine read it, in document order, each terminated before the next |
| ParseInPlace.Reparse | httpd/pugixml.cpp:2630-2856 | printing a tree, parsing the print in place and reading the strings from the buffer gives the tree |
| HttpParser.RequestParser.Consume | httpd/request_parser.cpp:27-206 | one character takes the parser through one step of the machine; a fold line never arrives without a header to extend |
| HttpParser.RequestParser.Parse | httpd/request_parser.cpp:27-206 | a chunk leaves the state that feeding its characters leaves and uses no character behind the end of the request |
| HttpParser.ChunkingIrrelevant | httpd/request_parser.cpp:27-206 | the result does not depend on how the input is cut into chunks |
| HttpParser.ParseChunks | httpd/request_parser.cpp:22-206 | a parser that is reset and fed chunk by chunk has the outcome of the machine on the joined text, whatever it was used for before |
| HttpGrammar.AcceptedExactly | httpd/request_parser.cpp:27-206 | the machine accepts exactly the requests of the grammar, with their meaning, and stops exactly at their end |
| HttpGrammar.PrintedAccepted | httpd/request_parser.cpp:27-206 | every request that is written by the grammar is read back with its meaning, whatever follows |
| HttpGrammar.StaysIntExactly | httpd/request_parser.cpp:96-130 | adding up the digits of a version number in a 32-bit int never overflows if and only if the number leaves room for the code of '0' |
| HttpGrammar.VersionsExact | httpd/request_parser.cpp:96-130 | in an accepted request no version number overflows on the way if and only if both returned numbers leave room for the code of '0' |
| HttpGrammar.OverflowExample | httpd/request_parser.cpp:96-130 | a request that is accepted with numbers that fit an int, although adding up one of them overflows |
| HttpFolding.HeaderExact | httpd/request_parser.cpp:139-199 | a header has the value of RFC 2616, a space for each line break, if and only if it is not folded |
| HttpFolding.FoldingExact | httpd/request_parser.cpp:27-206 | the accepted request is what RFC 2616 makes of the text if and only if no line begins with a space or a tab |
| HttpFolding.StandardAccepted | httpd/request_parser.cpp:27-206 | a text is accepted with the request that RFC 2616 makes of it if and only if it is written by the grammar with this meaning and no line begins with a space or a tab |
| HttpFolding.WordsExact | httpd/request_parser.cpp:139-199 | a folded value has the words of the standard's value if and only if no line break stands between two characters of words |
| HttpFolding.FoldExample | httpd/request_parser.cpp:139-199 | a header b, continued by c on a line that begins with a space, is returned as bc |

## Left out

- EvalNumber: numbers are reals with NaN and the infinities, because rounding is not the point; rounding of doubles and the sign of zero are not modelled, and converting between text and numbers is a parameter.
- EvalBoolean: the numbers that are compared are those of EvalNumber.
- EvalString: printing of numbers is a parameter.
- BetweenPositions: positions are sums of rounded reals, not of doubles.
- ReadingsExact: XPath 1.0 has namespace nodes, names with their namespaces, and text nodes that are never adjacent; the tree has not, so these are not compared. Which nodes have an ID is a parameter, because the program does not read document types.
- ParsedExactly: tokens are given; the lexer, location paths, filters and function calls are single tokens, and a node set operand is known by its token.
- ParseBuffer: comments, CDATA sections, processing instructions, declarations and document types inside the tree are left out, although the conversion of comments and CDATA is there (`TextInPlace.StrconvSection`); options are those with references converted, white space kept as text and line ends left alone, and the end-of-buffer character trick is not used.
- Load: the same nodes and options as ParseBuffer.
- ConvertText: scanning four characters at a time is written as a plain loop.
- RoundTrip: raw output without indentation; comments, instructions, declarations and document types are not printed.
- NodeOutput: names and contents are given for each node; indentation is left out.
- XmlDocument: attributes of a node are a sequence here; LinkedDocument has their pointers, LiveDocument their strings, each beside the same operations.
- LiveDocument: one document; copying from another document and `append_buffer` are left out, and so are operations after which allocation has failed.
- Dom: memory of nodes is a map from addresses to records; an address is not used again after its node has been freed.
- Store: heap blocks are fresh for each string; where they lie is the business of PageAllocator, which is proved separately.
- AllocateMemory: allocation never fails.
- Parse: version numbers are unbounded integers; HttpGrammar.VersionsExact says when the 32-bit sum overflows.
- DocumentOrderLess: nodes of one document; SeveralDocuments has the others, for documents with one buffer each.
- AsWide: two-byte wide characters only.
- The web server around the request parser, its replies and its connections.
- File and stream loading, encoding detection, the wide-character build, UTF-32 and Latin-1 decoding.
- Object wrappers, iterators, tree walkers, `find_node` and `path` helpers, `xml_text`, and XPath variables beyond their values.
