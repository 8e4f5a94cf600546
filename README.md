# carcass — a model of a browser WebDAV client

carcass is a small JavaScript WebDAV client (RFC 4918) built on `XMLHttpRequest` and Mustache.
This project models its data logic in Dafny and proves properties of it:

- the namespace-prefix assignment of `utils.readNamespaces`;
- the Depth, scope, lock-type and port checks;
- the request URL and the headers of PROPFIND, PROPPATCH, LOCK, COPY and MOVE;
- the four body templates, written as string-building functions;
- the handling of a PROPFIND response: the status check, record normalisation, root choice,
  linking every resource to its parent collection, and the call to the caller's handler.

Two versions of the client exist: `carcass.js` (variant `Current`) and `carcass.old.js`
(variant `Legacy`). One shared core takes a `Variant` wherever they differ:

- `open` path joining;
- the legacy constructor's port check;
- the legacy request methods open the raw path on their own XMLHttpRequest;
- a non-207 PROPFIND status is thrown by the current client and reported to the handler by the legacy one.

Modules:

- `Base`: Option and Result.
- `Text`: JavaScript string helpers — number rendering, `split`/`join`, `/\/$/`, `toLowerCase` on ASCII, and object key order.
- `Js`: JavaScript values, truthiness, `String(v)` and the client's exceptions.
- `Namespaces`: `readNamespaces`. There is a pure specification (`WalkProps`, `ReadNamespacesSpec`) and the imperative walk (`Walk`, `ReadNamespaces`) proved equal to it.
- `Templates`: the PROPFIND, PROPPATCH, value and LOCK templates.
- `Client`: the constructor, `open`, `setLock`, `setCharset`, and the request derivation of each method.
- `ResponseTree`: the response tree. `class Resource` has a `parent` and a `children` field that the linking loop updates in place.
- `PropfindResponse`: the PROPFIND `onreadystatechange` callback.
- `TreeExample`: a four-resource response (`/a/`, `/a/b`, `/a/c/`, `/a/c/d` and every response of that shape) worked through to its tree.

Where the code and its documentation comments differ, the model follows the code:

- LOCK's comment lists the depths '0' and 'Infinity'. The code accepts the number 0 and the string "infinity" in any case, and it rejects the string "0" (`DepthHeaderDigitStrings`).
- PROPFIND's comment gives a default depth of "Infinity". When no depth is given, no Depth header is sent (`DepthHeaderValues`).
- PROPPATCH documents a `deleteProperties` argument. The template reads `removeProperties`, so the `<remove>` block is always empty (`ProppatchRemoveEmpty`, `ProppatchIgnoresDeletions`).
- The PROPPATCH value template closes a prefixed element with an unprefixed tag (`ValueClosingTagUnprefixed`).
- The current `open` always inserts a `/`, which doubles the slash of an absolute path; the legacy `open` does not (`OpenUrlVariants`).

## Model

| member | source | states |
|---|---|---|
| Js.NumberHasDigit | carcass.old.js:450-454 | a port given as a number always passes the legacy `/\d/` test, because its string form contains a digit |
| Text.NatToString | carcass.js:871 | the decimal form of a number is non-empty and made of digits only |
| Text.ParseNatToString | carcass.js:871 | reading the decimal form back gives the number |
| Text.NatToStringInjective | carcass.js:394 | different numbers never render to the same digits |
| Text.IntToString | carcass.js:871 | `String(n)`: digits, with a leading '-' exactly for negative n |
| Text.Split | carcass.js:728 | `split('/')` has one piece more than there are slashes, and no piece contains a slash |
| Text.JoinSplit | carcass.js:749-753 | `split('/')` followed by `join('/')` gives the string back |
| Text.JoinSnoc | carcass.js:749-753 | joining pieces is joining all but the last, then '/', then the last (the effect of `pop`) |
| Text.SplitNoSlash | carcass.js:749 | a string without a slash splits into itself |
| Text.SplitSlashAppend | carcass.js:749 | appending '/' and a segment appends one piece to the split |
| Text.StripTrailingSlash | carcass.js:728 | `replace(/\/$/, '')` yields a prefix of its input |
| Text.LowerAscii | carcass.js:656 | `toLowerCase()` keeps the length and lowers each ASCII letter |
| Text.FirstSeen | carcass.js:734-735 | the keys of an object filled from a list: no repeats, exactly the list's elements |
| Text.FirstSeenDistinct | carcass.js:734-735 | a list without repeats is its own key order |
| Text.FirstSeenOrder | carcass.js:418-422 | one key comes before another exactly when it was first added earlier |
| Text.Without | carcass.js:739 | `delete` of a key: every other key is kept, and none is repeated |
| Namespaces.PrefixInjective | carcass.js:394 | two schema counts give the same prefix `'ns' + k` only when they are equal |
| Namespaces.Register | carcass.js:383-395 | after registering a schema it is in the `schemas` table |
| Namespaces.RegisterAllAppend | carcass.js:380-395 | registering two lists in turn is registering their concatenation |
| Namespaces.RegisterAllExtends | carcass.js:383 | an entry already in the table is never changed |
| Namespaces.RegisterAllFromEmpty | carcass.js:383-394 | from an empty table each schema is stored once, under `ns` + the number of schemas before it, in first-seen order |
| Namespaces.WalkItems | carcass.js:369-409 | a successful walk of n slots yields n slots |
| Namespaces.WalkPropertyTable | carcass.js:380-405 | walking a property registers exactly its schema and then those of its fields |
| Namespaces.WalkItemsTable | carcass.js:369-409 | walking slots registers the visited schemas in walk order |
| Namespaces.WalkTable | carcass.js:356-410 | walking a list, or one bare object, registers exactly its visited schemas |
| Namespaces.WalkPropertyOk | carcass.js:372 | a property whose nested lists have no holes walks without error |
| Namespaces.WalkItemsOk | carcass.js:369-376 | slots without holes walk without error |
| Namespaces.WalkOk | carcass.js:363-376 | a list without holes walks without error |
| Namespaces.WalkPropertyDeclared | carcass.js:397-405 | a walked property with name and schema carries an `ns` bound to its schema, and so do its fields |
| Namespaces.WalkItemsDeclared | carcass.js:397-398 | every walked slot is declared in this way |
| Namespaces.WalkDeclared | carcass.js:397-404 | every property in a walked list is declared in this way |
| Namespaces.WalkItemsShape | carcass.js:369-404 | per slot: a nameless property becomes a hole; a property without a schema is unchanged; a property with a schema gets an `ns` and keeps name, schema and value |
| Namespaces.CountSchemas | carcass.js:386-391 | the `for-in` count is the number of schemas registered so far |
| Namespaces.WalkItemsErrorPersists | carcass.js:372 | once a hole has thrown, walking further slots returns that same error |
| Namespaces.WalkEntry | carcass.js:380-405 | the loop body for a named property with a schema does what the specification says |
| Namespaces.Walk | carcass.js:356-410 | the recursive walk `f`, with its loop, computes the specification walk |
| Namespaces.ListBindings | carcass.js:418-422 | the `for-in` over `schemas` lists the bindings in insertion order |
| Namespaces.ReadNamespaces | carcass.js:348-426 | equals the specification; a falsy argument gives `[]`; a list without holes never throws |
| Namespaces.BindingsFirstSeen | carcass.js:412-425 | the k-th binding is `{ns: 'ns' + k, schema}` for the k-th distinct schema, in first-seen order |
| Namespaces.BindingsUnique | carcass.js:383-394 | no two bindings share a prefix or a schema |
| Namespaces.PrefixesDeclared | carcass.js:397-398 | every named property with a schema, at every depth, carries the prefix bound to its schema, so properties of one schema share one prefix |
| Templates.DeclarationsContain | carcass.js:254 | each binding appears as ` xmlns:nsK="schema"` in the declarations |
| Templates.PropfindAllprop | carcass.js:249-260 | without a non-empty properties array the body is the `<allprop/>` request |
| Templates.PropfindEntriesAt | carcass.js:255 | each slot of the array renders its own `<ns:name/>` entry |
| Templates.PropfindBodyParts | carcass.js:249-260 | with properties, the body is the declaration, `<propfind>`, `<prop` with the declarations, the entries, and the closing tags |
| Templates.PropfindBodyContains | carcass.js:249-260 | with properties, the body contains the declaring `<prop ...>` tag and every entry |
| Templates.PropfindPrefixDeclared | carcass.js:249-260 | a named property with a schema appears as `<nsK:name/>`, and its `xmlns:nsK` for that schema is declared on `<prop>` |
| Templates.ProppatchRemoveEmpty | carcass.js:266-274 | the body does not depend on the properties to delete and ends with an empty `<remove></remove>` |
| Templates.ValueClosingTagUnprefixed | carcass.js:280 | a prefixed value opens with `<ns:name>` and closes with `</name>` |
| Templates.ValueListAt | carcass.js:280 | every field of a property is rendered inside it through the value partial |
| Templates.SetListAt | carcass.js:269 | every slot of the array to set is rendered through the value partial inside its own `<prop>` |
| Templates.SetSectionAt | carcass.js:269 | every property to set, from an array or one bare object, appears as `<prop>` + its value entry + `</prop>` |
| Templates.ProppatchBodyContains | carcass.js:266-274 | the PROPPATCH body holds the `<propertyupdate>` tag declaring the bindings, and everything of the set section |
| Templates.ProppatchPrefixDeclared | carcass.js:266-280 | a property to set with a name and a schema opens as `<nsK:name>`, and its `xmlns:nsK` for that schema is declared on `<propertyupdate>` |
| Templates.LockBodyParts | carcass.js:286-291 | the LOCK body holds `<lockscope><scope/></lockscope>`, `<locktype><type/></locktype>` and the owner inside `<owner><href>` |
| Templates.LockBodyNoOwner | carcass.js:290 | an owner left out or `null` renders an empty `<href></href>` |
| Client.RemoveFirstColon | carcass.js:448 | `replace(':', '')` removes exactly the first colon and keeps every other character; a string without a colon is unchanged |
| Client.NewClient | carcass.js:439-450 | a built client has a truthy port and protocol, and the default timeout of 1000 |
| Client.PortCheck | carcass.old.js:446-454 | construction fails exactly for the legacy client with a port without a digit; a numeric port never fails |
| Client.ClientDefaults | carcass.js:446-448 | without arguments or location, the port is 80 and the protocol "http" |
| Client.OpenUrlVariants | carcass.old.js:471-478 | the two `open`s agree exactly on paths without a leading '/'; the legacy one treats `p` and `/p` alike; the current one doubles the slash |
| Client.SetLock | carcass.js:478-484 | exactly one `If` header for a truthy token, in angle brackets; none otherwise |
| Client.SetLockToken | carcass.js:482 | the `If` value between the brackets is the token |
| Client.SetCharset | carcass.js:493-502 | the Content-type header carries the charset that is returned |
| Client.CharsetChoice | carcass.js:497 | the charset is never empty: the given one if truthy, UTF-8 when nothing else is set |
| Client.DepthHeaderValues | carcass.js:650-662 | a Depth header is sent once for a given depth and is "0", "1" (PROPFIND only) or "infinity" in any case; none when no depth is given |
| Client.DepthHeaderNumbers | carcass.js:656 | the number 0 is accepted; the number 1 is accepted exactly for PROPFIND |
| Client.LowerInfinity | carcass.js:656 | "Infinity" lowers to "infinity" |
| Client.DepthHeaderInfinity | carcass.js:656-661 | "Infinity" is accepted and sent as given |
| Client.DepthHeaderDigitStrings | carcass.js:845-856 | the strings "0" and "1" are rejected with InvalidDepth |
| Client.TimeoutMaxDigits | carcass.js:237 | `HEADER_TIMEOUT_MAX` renders as 4100000000 |
| Client.TimeoutInfinite | carcass.js:865-867 | a falsy timeout asks for "Infinite, Second-4100000000", two valid RFC 4918 time types |
| Client.TimeoutSeconds | carcass.js:869-872 | "Second-" + n is a valid time type exactly when 0 < n <= 2^32-1 |
| Client.PropfindOutcome | carcass.js:648-662 | an invalid depth throws InvalidDepth; a valid depth with no holes in the properties yields a request |
| Client.PropfindRequest | carcass.js:648-783 | headers are Depth (if given) and Content-type; the target is the opened URL; the body is `<allprop/>` without properties |
| Client.ProppatchIgnoresDeletions | carcass.js:799-813 | the PROPPATCH request does not depend on `deleteProperties` |
| Client.ProppatchOutcome | carcass.js:799-813 | properties without holes give a request whose headers are If (iff a truthy token) and Content-type |
| Client.LockErrors | carcass.js:832-856 | LOCK fails exactly on a bad scope, then a bad type, then a bad depth, with that error |
| Client.LockHeaderSequence | carcass.js:845-876 | LOCK sets Depth if given, then If for a truthy token, or Timeout otherwise |
| Client.LockHeaderNames | carcass.js:830-886 | the LOCK request's headers are those and then Content-type |
| Client.CopyMoveHeaders | carcass.js:595-632 | Overwrite is T/F; COPY alone sends Depth Infinity/0; If iff a truthy token; Destination as given |
| ResponseTree.StripQuotesInverse | carcass.js:703 | a quoted etag loses exactly its quotes; an unquoted one is unchanged |
| ResponseTree.Normalise | carcass.js:697-713 | href and kind are kept; an empty mime type becomes null; only plain resources get a size |
| ResponseTree.Records | carcass.js:690-716 | one normalised record per response element, in document order |
| ResponseTree.ParentHrefSplit | carcass.js:749-753 | the parent path plus the last segment is the href without its trailing slash; a one-segment href has parent "/" |
| ResponseTree.ParentOfChild | carcass.js:749-753 | `p + seg` and `p + seg + '/'` have parent `p` and one segment more |
| ResponseTree.SlashCountAppend | carcass.js:728 | the slashes of a concatenation add up |
| ResponseTree.SlashCountNone | carcass.js:728 | a string without a slash has none |
| ResponseTree.ParentFewerSegments | carcass.js:749-753 | a parent path has one segment fewer than its child |
| ResponseTree.FirstMin | carcass.js:721-736 | the chosen position is among those compared |
| ResponseTree.FirstMinIsFirstMinimum | carcass.js:721-736 | the strict `<` keeps the first of the minimal counts |
| ResponseTree.SegmentCounts | carcass.js:728 | one segment count per record |
| ResponseTree.RootOf | carcass.js:721-736 | the root is one of the records |
| ResponseTree.RootOfMinimal | carcass.js:721-736 | the root has the fewest segments, and every earlier record has strictly more |
| ResponseTree.Hrefs | carcass.js:734 | the hrefs of the records, in order |
| ResponseTree.HrefsStep | carcass.js:734 | a prefix of the hrefs grows by the next record's href |
| ResponseTree.IndexOf | carcass.js:734 | every indexed href maps to a record with that href |
| ResponseTree.IndexOfKeys | carcass.js:734 | the index holds exactly the hrefs seen |
| ResponseTree.IndexOfLast | carcass.js:734 | a later record with the same href replaces an earlier one |
| ResponseTree.Pending | carcass.js:735-739 | the unprocessed keys: every href except the root's, each once |
| ResponseTree.LinkFailure | carcass.js:742-760 | no failure exactly when every pending key's parent is indexed and is a collection; otherwise a pending key and its parent path |
| ResponseTree.LinkFailureFirst | carcass.js:744-757 | keys are checked in order and the first missing or non-collection parent is reported |
| ResponseTree.ChildPositionsMember | carcass.js:753-754 | a record is among p's children exactly when a linked key of it has p as parent |
| ResponseTree.ChildIffParent | carcass.js:753-754 | a record is among p's children exactly when its parent is p |
| ResponseTree.AssemblyIndex | carcass.js:734-739 | the index is consistent, and every pending key is indexed |
| ResponseTree.ChildPositionsDistinct | carcass.js:754-757 | no child is listed twice |
| ResponseTree.ParentPositionStep | carcass.js:753 | linking key h sets the parent of h's record only |
| ResponseTree.ChildPositionsStep | carcass.js:754 | linking key h appends h's record to its parent's children only |
| ResponseTree.Resource.constructor | carcass.js:306-326 | a new resource object holds its record, with a null parent and no children |
| ResponseTree.IndexStep | carcass.js:721-736 | one `forEach` step: the index entry is overwritten, a new key is appended, and the root changes only on a strictly smaller count |
| ResponseTree.CreateResources | carcass.js:690-716 | one fresh object per record, in order, with no parent and no children |
| ResponseTree.IndexResources | carcass.js:718-736 | the `forEach` gives root -1 only for an empty response, otherwise the first record of fewest segments, the href index, and the keys in first-seen order |
| ResponseTree.Attach | carcass.js:753-754 | the parent is set; the push succeeds exactly when the parent is a collection, and the linked state grows by this key |
| ResponseTree.Link | carcass.js:742-760 | the link loop fails with the first failure of its keys; otherwise every key is linked to its parent |
| ResponseTree.LinkFromRoot | carcass.js:739-760 | after removing the root's key, linking fails exactly as `LinkFailure` says, or yields the tree rooted at the root |
| ResponseTree.Assemble | carcass.js:690-760 | an empty response is EmptyResponse; otherwise an error exactly when a parent is missing or not a collection, else fresh objects forming the tree: root with null parent, each resource pointing to its parent and listed in its children |
| PropfindResponse.Dispatch | carcass.js:762-772 | an omitted handler is skipped, a non-function throws the TypeError, a function is called with the arguments |
| PropfindResponse.StatusFlag | carcass.old.js:768-796 | the current client throws UnexpectedResponseStatus(status, 'PROPFIND') on any status but 207 whatever the handler; a legacy function handler is called either way, with a success flag true exactly on 207, the status text, and the tree only on 207 |
| PropfindResponse.Complete | carcass.js:676-773 | nothing before DONE; the current client throws on a non-207 status; an empty or unlinkable response throws before the handler; otherwise the handler check and a call with the assembled tree; a legacy function handler gets success exactly on 207, and the tree then |
| TreeExample.Literal | carcass.js:718-760 | `/a/`, `/a/b`, `/a/c/`, `/a/c/d` is an instance of the example shape |
| TreeExample.SampleLinks | carcass.js:718-760 | the example is rooted at its first record and links without error |
| TreeExample.SampleTree | carcass.js:718-760 | the example's tree: the root holds the resource and the sub-collection, and the sub-collection holds the last resource |

## Left out

- XMLHttpRequest: `open`, `send`, `setRequestHeader`, asynchronous completion and the request timeout are I/O. Requests are returned as values: method, target, headers in the order they are set, and body.
- XPath evaluation and `createNSResolver` are DOM calls. The records they extract from a response are the input of `Assemble`.
- `new Date(...)` for ctime and mtime is host date parsing, and XPath `number()` for the size is a float that can be NaN. Both are kept as the raw string and an integer.
- JavaScript numbers are integers here: no NaN, no fractions, no floating point.
- Mustache is not modelled: there is no HTML escaping and no lookup in enclosing contexts. A missing key renders as nothing. A nested `fields` entry renders through the value partial.
- Templates.ValueEntry: nested rendering matches Mustache only for fields that carry their own `fields`, `ns` and `value` keys. Mustache looks a missing key up in the enclosing context: a nested field without its own `ns` or `value` takes its parent's, and a nested field without `fields` (or a nested hole) finds the parent's `fields` list and renders it again, without end. The model renders such a field as a leaf.
- `location` and `document` are browser globals. Their fields are parameters (`Location`, `Document`), and the Mustache presence test is the `mustacheLoaded` parameter.
- GET, PUT, DELETE, MKCOL, UNLOCK and the `toString` methods are left out: they only open, set the lock and send.
- `HTTP_STATUS_CODES` and the text of `UnexpectedResponseStatus` are left out: the error carries the status and the method.
- `UnsupportedBrowser` is never thrown by the modelled code.
- Property objects are values. The in-place writes of `.ns` and `delete` are returned as the rewritten list, so aliasing between the caller's objects is not captured.
- `ResponseTree.Link`: the `while` loop around `for-in` is one pass over the keys in insertion order. One pass removes every key, so the `while` never runs twice. `indexedResources` and `unprocessedResources` are arrays, and `for-in` enumerates canonical array-index keys (such as `42`) first, in numeric order. The model assumes that no href is such a key, which holds for every path and every absolute URI.
- `Namespaces.ListBindings`: the same index-first order applies to the `schemas` array (carcass.js:352, 418-422). The model lists bindings in insertion order, assuming that no schema is a canonical array index such as `42`, which holds for every namespace URI.
- `ResponseTree.Assemble`: the `TypeError` from an undefined parent, or from `push` on a parent without `children`, is `MissingParent` or `ParentNotCollection`. The contract does not describe the objects left behind by a failed assembly.
- `ResponseTree.Resource`: a plain resource has an empty `children` sequence where the JavaScript object has no `children` at all. The push into it is refused by checking `isCollection`.
- `PropfindResponse.Complete`: the handler's `this` (the context argument) is not part of the outcome.
- `Client.PropfindOutcome`: the current client calls `open` before the Depth check. The opened but unsent request is not part of the result.
- `Client.CopyMoveHeaders`: the Destination header is the destination as given. The client does not make it absolute.
- `Client.SetLock`: the `If` header is `<token>` exactly as the client sends it, not checked against the list syntax of section 10.4 of RFC 4918.
- grunt.js is build configuration, and test/node.js needs a live WebDAV server.
