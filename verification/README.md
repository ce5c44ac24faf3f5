# FluidXml context layer in Dafny

A model of `FluidContext`, the FluidXml class that wraps an ordered list of
DOM nodes and fans every fluent operation out over them. The model covers:

- construction, with its node-type check;
- the `ArrayAccess` operations (`offsetGet`, `offsetExists`, `offsetSet`,
  `offsetUnset`), the `Iterator` protocol and `length`;
- `query` and `__invoke`: every query string is resolved (used verbatim when
  it already reads as XPath, otherwise translated from CSS), evaluated from
  every node of the context, node-major then query-major, and the hits are
  collapsed by identity (`filterQueryResults`);
- the target selection of `remove`;
- the callback combinators `each`, `filter` and `times`;
- `setAttribute` and its alias `attr`: argument normalisation, and an
  attribute list that keeps its order when an existing attribute is
  rewritten.

Modules, one per file:

| file | module | contents |
|---|---|---|
| base.dfy | `Base` | node handles, `Option`, `Result`, the exceptions, `NoDup`, `IndexOf` |
| context.dfy | `Contexts` | the context value, the constructor, `ArrayAccess`, `Iterator`, `length` |
| resolve.dfy | `Resolution` | `resolveQuery` |
| dedup.dfy | `Unique` | `filterQueryResults` and its reference definition `Dedup` |
| query.dfy | `Queries` | `query`, its argument normalisation, `remove` target selection |
| callbacks.dfy | `Callbacks` | `each`, `filter`, `times` |
| attributes.dfy | `Attributes` | `setAttribute` over an attribute store |

A context is an immutable value `Context(nodes, seek)`. An operation that
changes the PHP object returns the new value instead. Nodes are opaque
handles compared by identity, as PHP's `===` compares objects.

The XPath evaluator (`DOMXPath::query`) and the CSS translator
(`CssTranslator::xpath`) are function-typed parameters. Nothing is assumed
about what they compute, but as Dafny functions they are total: the
translator always returns an address and the evaluator always returns a
list of node handles. Their failures are listed under "## Left out".
Callbacks are pure functions of their arguments. `each` and
`times` return the list of calls they make, since what the callbacks do to
the document is outside the model.

`offsetUnset` follows PHP's `array_splice($nodes, $offset, 1)`:
- a negative offset counts from the end and is clamped at 0;
- an offset at or past the end removes nothing;
- later nodes move down one index.

`filter` keeps a node unless its callback returned exactly `false`, so
`null`, `0` and `""` keep it.

## Model

| member | source | states |
|---|---|---|
| Base.IndexOf | source/FluidXml/FluidContext.php:446-463 | the first position of a node in a list, or the length when it is absent; the order "first seen" in `filterQueryResults` is measured by it |
| Contexts.Elements | source/FluidXml/FluidContext.php:25-29 | a value that is neither an array nor `Traversable` is wrapped as a one-element list; an iterable is used as it is |
| Contexts.Construct | source/FluidXml/FluidContext.php:20-38 | construction succeeds exactly when every element is a DOM node; otherwise it fails with "Node type not recognized"; on success the context holds those nodes in order and the seek counter is 0 |
| Contexts.OffsetExists | source/FluidXml/FluidContext.php:52-55 | `isset($cx[$i])` holds exactly when `0 <= i < length` |
| Contexts.OffsetGet | source/FluidXml/FluidContext.php:65-72 | `$cx[$i]` is the node at index i when `0 <= i < length`, and null otherwise (negative or past the end) |
| Contexts.OffsetSet | source/FluidXml/FluidContext.php:41-49 | both `$cx[] = v` and `$cx[i] = v` throw "Setting a context element is not allowed"; no new context is produced |
| Contexts.SpliceStart | source/FluidXml/FluidContext.php:58-62 | where `array_splice` starts: never past the end of the list |
| Contexts.OffsetUnset | source/FluidXml/FluidContext.php:58-62 | an in-range offset removes that node and shifts later nodes down one index; a negative offset removes the node that many places from the end, or the first node when it reaches past the start; an offset at or past the end (or an empty context) changes nothing; the seek counter is untouched |
| Contexts.UnsetThenGet | source/FluidXml/FluidContext.php:58-72 | after unsetting an in-range offset, reading that offset yields the node that followed it (null if it was the last), and the old last offset no longer exists |
| Contexts.Length | source/FluidXml/FluidContext.php:104-113 | `length()` and `size()` are `count($nodes)`, the number of entries of the context's PHP list |
| Contexts.Rewind | source/FluidXml/FluidContext.php:75-78 | `rewind()` keeps the nodes and sets the key to 0; afterwards the iterator is valid exactly when the context is non-empty |
| Contexts.Key | source/FluidXml/FluidContext.php:87-90 | `key()` is the seek counter, the offset under which `current()` reads its node while the iterator is valid |
| Contexts.Next | source/FluidXml/FluidContext.php:93-96 | `next()` keeps the nodes and advances the key by one |
| Contexts.Valid | source/FluidXml/FluidContext.php:99-102 | `valid()` holds exactly when the seek counter indexes a node |
| Contexts.Current | source/FluidXml/FluidContext.php:81-84 | `current()` is the node under the seek counter exactly when `valid()` holds, and null past the end |
| Contexts.Foreach | source/FluidXml/FluidContext.php:74-102 | iterating with rewind/valid/current/key/next visits every node exactly once, at its own index, in order, whatever the seek counter was before, and ends invalid |
| Resolution.ResolveQuery | source/FluidXml/FluidContext.php:434-444 | a query that starts with `/`, is exactly `.`, or starts with `./` or `../` is returned verbatim; every other query is the translator's output |
| Resolution.TranslatedLookalikes | source/FluidXml/FluidContext.php:436-439 | the empty string, `..` and `.x` go to the translator, because PHP string offsets past the end read as the empty string |
| Unique.Dedup | source/FluidXml/FluidContext.php:446-463 | the reference definition of identity deduplication: no node twice, the same members as the input, in the order the input first mentions them, never longer than the input |
| Unique.FilterQueryResults | source/FluidXml/FluidContext.php:446-463 | `FluidContext`'s nested-loop algorithm, with its identity comparison and no early exit, computes exactly `Dedup` |
| Unique.Contains | source/FluidXml/FluidContext.php:451-455 | the inner loop's flag ends true exactly when the result already occurs in the list built so far |
| Unique.DedupOfUnique | source/FluidXml/FluidContext.php:446-463 | results that hold no node twice pass through unchanged |
| Unique.DedupIdempotent | source/FluidXml/FluidContext.php:446-463 | filtering already-filtered results changes nothing |
| Unique.DedupCharacterised | source/FluidXml/FluidContext.php:446-463 | any list with no duplicates, the same members and first-seen order is the filtered list, so these three properties fully specify the filter |
| Queries.QueryStrings | source/FluidXml/FluidContext.php:115-119 | an array as first argument replaces the argument list (any further arguments are dropped); otherwise the query strings are the arguments, in order |
| Queries.HitsAtMembers | source/FluidXml/FluidContext.php:126-146 | a node is among the raw hits from one starting node exactly when some resolved query finds it from there |
| Queries.HitsMembers | source/FluidXml/FluidContext.php:125-147 | a node is among the raw hits exactly when some resolved query finds it from some node of the context |
| Queries.HitsNodeMajor | source/FluidXml/FluidContext.php:125-147 | the raw hits of a context split in two are the first part's hits followed by the second part's: hits are grouped by starting node |
| Queries.HitsQueryMajor | source/FluidXml/FluidContext.php:126-146 | from one node, the hits of a split query list are the first queries' hits followed by the rest's: within a node, hits are grouped by query |
| Queries.QueryNodes | source/FluidXml/FluidContext.php:149-155 | the nodes of the new context: no node twice, exactly the nodes some query finds from some context node, ordered by first appearance in the node-major, query-major hits |
| Queries.AppendHitsFrom | source/FluidXml/FluidContext.php:126-146 | the inner loop appends, for each query in order, the evaluator's result for the resolved query from one node |
| Queries.CollectHits | source/FluidXml/FluidContext.php:121-147 | the outer loop produces exactly the node-major, query-major concatenation of hits |
| Queries.Query | source/FluidXml/FluidContext.php:115-156 | `query` returns a fresh context (seek 0) over the deduplicated hits; an empty context yields an empty context |
| Queries.SharedTargetOnce | source/FluidXml/FluidContext.php:149-152 | an ascending or absolute query that finds only the same node `p` from every node of a non-empty context yields exactly `[p]` |
| Queries.RemoveTargets | source/FluidXml/FluidContext.php:383-392 | with no argument `remove` targets the context's own nodes; otherwise it targets the nodes `query` returns for the same arguments |
| Callbacks.Single | source/FluidXml/FluidContext.php:429-432 | `newContext($n)` is a context over that one node with seek 0 |
| Callbacks.Each | source/FluidXml/FluidContext.php:176-185 | `each` calls the callback once per node, in order, with a one-node context, the index and the node, and returns the same context |
| Callbacks.KeptIndices | source/FluidXml/FluidContext.php:191-199 | the kept indices are ascending, in range, and include an index exactly when its callback did not return `false` |
| Callbacks.Filter | source/FluidXml/FluidContext.php:187-202 | `filter` returns a fresh context holding, in original order, exactly the nodes at the kept indices |
| Callbacks.Times | source/FluidXml/FluidContext.php:163-174 | with a callback, `times(n)` calls it with the same context and the indices 0 to n-1 (no call when n <= 0) and returns the same context |
| Attributes.SetAttr | source/FluidXml/FluidContext.php:270-271 | `DOMElement::setAttribute` keeps names unique; an existing attribute is rewritten in place (length and order unchanged, every other attribute untouched); a new one is appended at the end |
| Attributes.Normalize | source/FluidXml/FluidContext.php:256-266 | the pair form `setAttribute($name, $value)` becomes the one-entry array `[$name => $value]`; the array form is used as given |
| Attributes.ApplyAll | source/FluidXml/FluidContext.php:269-285 | setting a list of attributes one after another keeps names unique |
| Attributes.ApplyAllUpdates | source/FluidXml/FluidContext.php:268-286 | after setting the entries, every existing attribute is at its old position with the last value the entries give it (or its old value); every later attribute is one the entries name, with its last value, and these new attributes appear in the order in which the entries first name them; every name the entries mention is present |
| Attributes.ArrayFormInOrder | source/FluidXml/FluidContext.php:264-285 | `setAttribute([x => v1, y => v2])` on an element without attributes yields exactly `x = v1` then `y = v2`, in argument order |
| Attributes.UpdatedAgain | source/FluidXml/FluidContext.php:268-286 | setting the same entries twice, as happens for a node listed twice in a context, is still such an update of the original list |
| Attributes.SingleAttributeUpdate | source/FluidXml/FluidContext.php:258-284 | for the pair form: an existing name keeps its position and the list its length, with every other attribute untouched; a new name is appended at the end |
| Attributes.SetOnNode | source/FluidXml/FluidContext.php:269-285 | the inner loop sets every entry, in order, on one node and changes no other node |
| Attributes.FanOutStep | source/FluidXml/FluidContext.php:268-286 | after one more pass of the outer loop, the nodes handled so far are updated and every other node is untouched |
| Attributes.UpdateNode | source/FluidXml/FluidContext.php:268-286 | the node handled in a pass ends up updated, whether or not an earlier pass already handled it |
| Attributes.SetAttribute | source/FluidXml/FluidContext.php:254-289 | `setAttribute` returns the same context; every node of the context is updated as above, new attributes appended in first-mention order; nodes outside the context keep their attributes; names stay unique |
| Attributes.RewriteKeepsOrder | source/FluidXml/FluidContext.php:279-284 | setting `x`, then `y`, then `x` again leaves the attributes in the order `x`, `y` |
| Attributes.NamesAfterSet | source/FluidXml/FluidContext.php:270-271 | one `setAttribute` leaves the name list as it was for an existing name and appends the new name otherwise |

## Left out

- `addChild`, `prependSibling`, `appendSibling` and their aliases: they delegate to the insertion handler, which is not part of this model.
- `setText`, `addText`, `setCdata`, `addCdata`, `setComment`, `addComment` and their aliases: they only write into DOM nodes, and the DOM is not part of this model.
- `remove`: only its choice of targets is modelled. The `removeChild` calls that follow change the DOM, which is not modelled.
- `xml`, `html`, `__toString`: serialisation, which is outside the context layer.
- `dom`, `array_`: plain accessors of state the model does not keep (the document) or keeps directly (`nodes`).
- `times` without a callback returns a `FluidRepeater`, which is not part of this model.
- `callfn` binds a closure's `$this` to the first argument. The model passes that argument explicitly instead.
- Callbacks' side effects on the document are not modelled. `each` and `times` return the list of calls made instead.
- The XPath evaluator and the CSS translator are parameters. XPath and CSS semantics are not modelled.
- The document and handler references a context carries are not modelled.
- The PHP 5.6 compatibility traits (`__call`, `__callStatic`) are not modelled.
- `size`, `__invoke` and `attr` are exact aliases of `length`, `query` and `setAttribute`. They have no members of their own.
- Queries.Query: query arguments that mix arrays into later positions, or pass objects, are excluded by `WellTypedArgs`. `FluidContext` would hand such values to `resolveQuery`, where their meaning depends on PHP coercions.
- Queries.Query: the translator is total here. `CssTranslator::xpath` can reject an unsupported selector with an exception, which leaves `query` (and `remove` with arguments) at the `resolveQuery` call without a result. The translator is not part of this model.
- Queries.Query: the evaluator returns node handles only. An XPath hit that is not a `DOMNode` (a `DOMNameSpaceNode`, from a `namespace::` axis) makes `newContext` throw "Node type not recognized". This model's node type cannot express such a hit.
- Attributes.SetAttribute: `DOMElement::setAttribute` can fail. Calling it on a node that is not an element (a text node from `query('//text()')`, say) is a PHP error, and an invalid attribute name throws a `DOMException`; the nodes handled before the failure keep their new attributes. The model treats every context node as an element with an attribute list and every name as valid, because node kinds and XML name syntax belong to the DOM, which is not part of this model.
- Contexts.OffsetGet: only integer offsets are modelled. PHP's coercion of string, float and null offsets is not.
- Attributes.SetAttribute: `setAttribute($name)` with no value, where PHP reads a missing argument as null, is not modelled.
- Attributes.SetAttribute: PHP's conversion of numeric-string array keys to integers is not modelled. Names are plain strings.
- Contexts.Current: reading past the end raises a notice in PHP. Here it is just the null result.
