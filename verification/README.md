# OpenStreetMap point-of-sale import, in Dafny

This project models `OsmImportService.importFromOsm` from the CampusCoffee service.
The method fetches one OpenStreetMap node as XML, reads the first `node` element's
`lat` and `lon` attributes and its first `name` tag, and saves a new point of sale
through the repository. Otherwise it fails with one of a fixed set of errors, in a
fixed order.

The collaborators whose code is not visible become inputs:

- the HTTP fetch is a `Fetched` value: a body, `null`, or a thrown exception;
- the XML parser is a function `string -> Parsed`, giving the document element or a parse failure;
- `new BigDecimal(text)` is a function `string -> Option<Decimal>`;
- `PointOfSaleRepository.save` is a function `PointOfSale -> Stored`, giving the saved entity or a thrown exception.

A collaborator exception is recorded as its message and whether it is an
`IllegalArgumentException`; a parser failure keeps the parser's message.
`Import` returns the result together with a call log. The log lists every call into
the parser, the decimal parser and the repository, so that statements like "nothing
is saved" can be proved.

Modules:

- `Wrappers` holds `Option`.
- `Dom` is the element tree. It has `getAttribute`, where an absent attribute reads as `""`, and `getElementsByTagName`, which returns the proper descendants with the given name, in pre-order (document order).
- `JavaString` holds `String.trim` and the blank test `trim().isEmpty()`.
- `OsmImport` holds the pipeline, a reference statement of when an import reaches the repository, and the lemmas.

Behaviour of the code that is easy to miss:

- The `name` tag is searched among all descendants of the node (`getElementsByTagName`, line 79), not only among its direct children.
- A coordinate that is not a decimal raises `NumberFormatException` (lines 74-75). That is a subclass of `IllegalArgumentException`, so the first catch clause rethrows it unwrapped. The model gives it a separate `Cause` constructor, `InvalidNumber`, rather than folding it into another error.
- A document the parser rejects (`SAXException`, line 55) is not an `IllegalArgumentException`. It falls into the generic `catch (Exception e)` and is wrapped in a `RuntimeException` (lines 105-106).
- The method's doc comment (line 40) says the method throws `IllegalArgumentException` when the name is missing or other errors occur. The method's own checks (lines 49, 61, 71, 91), `NumberFormatException`, and an `IllegalArgumentException` from the HTTP client or the repository do surface as `IllegalArgumentException` (lines 103-104). Failures that are not an `IllegalArgumentException` surface as a wrapping `RuntimeException` (lines 105-106). These are a parser failure (`SAXException`) and any other exception from the HTTP client or the repository.

## Model

| member | source | states |
|---|---|---|
| `Dom.GetAttribute` | OsmImportService.java:67-68 | the result is the value of an attribute with that name on the element, or `""` when the element has no such attribute (never null) |
| `Dom.DescendantsAreReachable` | OsmImportService.java:58 | the descendant enumeration holds exactly the elements reachable by one or more child steps: every depth, and nothing outside it |
| `Dom.DescendantsAreInside` | OsmImportService.java:57-58 | every element `getElementsByTagName` searches lies strictly inside the element it is called on, so that element is never among them |
| `Dom.NamedMembers` | OsmImportService.java:58 | `getElementsByTagName` keeps exactly the enumerated elements with that name |
| `Dom.ElementsByTagNameFindsReachable` | OsmImportService.java:58 | contract of `Dom.ElementsByTagName`: it returns exactly the elements with that name that one or more child steps lead to (used on lines 58 and 79) |
| `Dom.NamedHeadIsEarliest` | OsmImportService.java:58-64 | the first element `getElementsByTagName` returns is the earliest element with that name in document order |
| `Dom.FirstNamedSurvivesWrapping` | OsmImportService.java:58-64 | elements added after the document's content, or before it when they hold no match, do not change which element is found first |
| `JavaString.Trim` | OsmImportService.java:90 | `trim` returns the infix left after dropping characters ≤ U+0020 at both ends: everything dropped is ≤ U+0020 and neither end of the result is; it is empty exactly when every character is ≤ U+0020 |
| `JavaString.IsBlank` | OsmImportService.java:90 | `name.trim().isEmpty()` holds exactly when every character of the name is ≤ U+0020 |
| `OsmImport.FirstNode` | OsmImportService.java:57-64 | `nodeList.item(0)`, when there is one, is called `node` and lies strictly inside the document element |
| `OsmImport.FirstNodeIsEarliest` | OsmImportService.java:58-64 | contract of `FirstNode`: the selected node is absent exactly when no proper descendant of the document element is called `node`; otherwise the earliest such descendant in document order |
| `OsmImport.NameTagIsFirstMatch` | OsmImportService.java:78-87 | contract of `NameTag`, the tag scan: the scanned name is absent exactly when no tag has `k` = `"name"`; otherwise the `v` of the first tag with `k` = `"name"` |
| `OsmImport.ScanName` | OsmImportService.java:78-87 | the counting loop that breaks at the first `k` = `"name"` computes the same value as the first-match definition |
| `OsmImport.FirstNameTagWins` | OsmImportService.java:80-86 | once a name tag has been found, tags after it never change the result |
| `OsmImport.Extract` | OsmImportService.java:57-92 | extraction only parses decimals; it stops only for no node, missing coordinates, an invalid number or a missing name; the first two stop before any decimal is parsed |
| `OsmImport.TryImport` | OsmImportService.java:43-102 | the try block calls the parser first if at all and the repository last if at all; an entity it returns is exactly what the repository answered for the last call |
| `OsmImport.ExtractAndSave` | OsmImportService.java:57-101 | after the parse only decimals are parsed before the repository is called; a returned entity is what the repository answered |
| `OsmImport.Catch` | OsmImportService.java:103-107 | an entity passes through; an exception keeps its cause and is wrapped exactly when it is not an `IllegalArgumentException` |
| `OsmImport.CatchKeepsOutcome` | OsmImportService.java:103-107 | the catch clauses lose nothing: different outcomes of the try block never end in the same result |
| `OsmImport.Import` | OsmImportService.java:42-107 | the four validation errors and `NumberFormatException` escape unwrapped; parser failures are always wrapped; fetch and save exceptions are wrapped exactly when they are not `IllegalArgumentException`; an exception from the HTTP client is the result, wrapped unless it is an `IllegalArgumentException`, with nothing else called, and that is the only way a fetch failure arises |
| `OsmImport.FirstNodeIsUnique` | OsmImportService.java:58-64 | the node the import selects is the one the reference definition "first `node` descendant" names |
| `OsmImport.NameTagIsUnique` | OsmImportService.java:78-87 | the name the scan returns is the one the reference definition "first tag with `k` = `name`" names |
| `OsmImport.FromNodeMatchesReference` | OsmImportService.java:67-92 | contract of `FromNode`: given a node, extraction yields (name, lat, lon) if and only if the coordinates are non-empty and parse to lat and lon, and the first name tag holds that name with a character `trim` keeps |
| `OsmImport.ExtractMatchesReference` | OsmImportService.java:57-92 | extraction from the document yields (name, lat, lon) if and only if the reference conditions hold for the first `node` descendant |
| `OsmImport.SaveEndsExtraction` | OsmImportService.java:94-101 | after a successful extraction the entity with no id and the extracted values is saved as the last call, and the save decides the outcome |
| `OsmImport.SavedAfterExtraction` | OsmImportService.java:94-101 | after the parse the repository only ever sees the entity a successful extraction built, with no id |
| `OsmImport.SavedOnceAfterExtraction` | OsmImportService.java:95-101 | after a successful extraction, save is called exactly once, last, with an entity that has no id and the extracted name, latitude and longitude; the result is whatever save returns, or its exception, wrapped unless it is an `IllegalArgumentException` |
| `OsmImport.RejectedExtractionFails` | OsmImportService.java:103-104 | a failed extraction ends the import with that cause, unwrapped, and with no save call |
| `OsmImport.ImportableIsSavedOnce` | OsmImportService.java:48-101 | when every check passes, save is called exactly once, with the untrimmed name and the parsed coordinates; its answer is returned unchanged, or its exception is wrapped unless it is an `IllegalArgumentException` |
| `OsmImport.SaveFollowsExtraction` | OsmImportService.java:95-101 | an entity handed to save comes from a successful extraction of a non-empty, parsed body and has no id |
| `OsmImport.SaveReachedIffImportable` | OsmImportService.java:48-101 | save is called with an entity if and only if every check passes and yields exactly that entity |
| `OsmImport.NotImportableIsNeverSaved` | OsmImportService.java:48-101 | when some check fails, save is never called and the import fails |
| `OsmImport.NoResponseStopsFirst` | OsmImportService.java:46-50 | a null or empty body fails with the no-response error, unwrapped, and neither parser nor repository is called |
| `OsmImport.MalformedIsWrapped` | OsmImportService.java:53-55 | a body the parser rejects fails wrapped, after one parse call and nothing else |
| `OsmImport.NoNodeBelowRoot` | OsmImportService.java:57-62 | with no `node` descendant of the document element, the import fails with the no-node error after only the parse call |
| `OsmImport.RootNamedNodeIsNotFound` | OsmImportService.java:57-64 | for every document, the document element is never the selected node, even when it is itself called `node` |
| `OsmImport.CoordinatesCheckedBeforeParsing` | OsmImportService.java:64-72 | an absent or empty `lat` or `lon` on the first node fails with the coordinates error before any decimal parse |
| `OsmImport.InvalidLatitudeBeforeName` | OsmImportService.java:74 | a non-decimal `lat` escapes unwrapped as `NumberFormatException`, before `lon` is parsed and whatever the tags hold |
| `OsmImport.InvalidLongitudeBeforeName` | OsmImportService.java:75 | a non-decimal `lon` escapes unwrapped after both parses, whatever the tags hold |
| `OsmImport.NoNameTagFails` | OsmImportService.java:78-92 | valid coordinates and no tag with `k` = `"name"` below the node fail with the missing-name error, with no save |
| `OsmImport.BlankNameRejected` | OsmImportService.java:89-92 | with valid coordinates, a blank first name rejects the node with the missing-name error after both decimal parses |
| `OsmImport.BlankNameTagFails` | OsmImportService.java:89-92 | a first name tag whose value is all characters ≤ U+0020 fails with the missing-name error, whatever later name tags hold |
| `OsmImport.FirstNodeSurvivesWrapping` | OsmImportService.java:58-64 | elements added around the document's content, where those before it hold no `node`, keep the selected node |
| `OsmImport.OutsideFirstNodeIgnored` | OsmImportService.java:57-87 | such added elements, with any tags or nodes inside them, leave the whole import unchanged |
| `OsmImport.CafeCentralIsImported` | OsmImportService.java:42-101 | `<osm><node lat="49.41" lon="8.71"><tag k="name" v="Café Central"/></node></osm>` is saved once with exactly those values |
| `OsmImport.NodeWithoutTagsHasNoName` | OsmImportService.java:89-92 | `<osm><node lat="1.0" lon="2.0"></node></osm>` fails with the missing-name error and saves nothing |
| `OsmImport.BlankFirstNameHidesLaterOne` | OsmImportService.java:80-92 | example: in `<osm><node lat="1.0" lon="2.0"><tag k="name" v=" "/><tag k="name" v="Kiosk"/></node></osm>` the blank first name is not skipped in favour of the later one (the general form is `BlankNameTagFails`) |
| `OsmImport.SiblingTagIsNotTheName` | OsmImportService.java:79-92 | example: in `<osm><node lat="1.0" lon="2.0"/><way><tag k="name" v="Kiosk"/></way></osm>` the name tag on the node's sibling is not read and the import fails with the missing-name error (the general form is `OutsideFirstNodeIgnored`) |

## Left out

- The HTTP call through `RestTemplate` and the URL built from `OSM_API_URL` and the node id (lines 24, 45-46) are network I/O. Their outcome is the `Fetched` input.
- XML tokenising and well-formedness (`DocumentBuilderFactory`, `DocumentBuilder.parse`, lines 53-55) are library code. Their outcome is the `Parsed` result of the `parse` function. Text, comments and namespaces are not in the tree. Element names are compared as written, since the default factory is not namespace-aware.
- The grammar of `new BigDecimal(String)` is library code. It is the `decimal` function. A `Decimal` keeps the unscaled value and the scale, so precision is never lost.
- The repository, JPA mapping and Spring wiring (`@Service`, `@Autowired`, lines 21-33) are framework plumbing. `save` is a function parameter. The entity's other fields are not part of this model.
- The German message texts, and the wrapping message "prefix + original message", are reduced to the error cause and a `wrapped` flag. The original cause is kept inside the error.
- `java.lang.Error` throwables (out of memory, stack overflow) pass through both catch clauses. They are not modelled.
- The `latStr == null` and `lonStr == null` tests on line 70 can never be true, because `getAttribute` returns `""` for an absent attribute. The model has only the empty test.
- `Dom.GetAttribute`: when an element carries the same attribute name twice, it does not say which value is returned. Well-formed XML forbids that (section 3.1 of XML 1.0). The function itself returns the first value.
- Java `char` is a UTF-16 code unit, and Dafny `char` is a Unicode scalar value. `trim` compares against U+0020, so the two agree on which characters are removed.
