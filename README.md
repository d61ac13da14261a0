# PAGE-XML object model

This project models the object model of the `page` library. The library reads
PAGE-XML layout documents, which describe the regions, lines, words and glyphs
found on a scanned page and the reading order over its regions. It then writes
them back.

The XML tree is modelled as a value: `Xml.Node` holds a local tag name, its
attributes, its ordered child elements and an optional text. Every
`from_element` becomes a total function that returns `Result<T, PageError>`.
The error cases are errors the model names, where the library raises. Every
`to_element` becomes a function that returns a `Node`.

The model's modules follow the library's files:

| module | file |
|---|---|
| `Points` | `point.py` |
| `Coords` | `coords.py` |
| `IndexMaps` | `indexed.py` |
| `Texts` | `text.py` |
| `Alternatives` | the TextEquiv alternatives shared by words and lines (a glyph reads only its first TextEquiv) |
| `Glyphs` | `glyph.py` |
| `Words` | `word.py` |
| `Lines` | `line.py` |
| `Regions` | `region.py` |
| `RegionRefs` | `region_ref.py` |
| `Groups` and `GroupLaws` | `group.py`, `ordered_group.py` and `unordered_group.py` |
| `ReadingOrders` | the ReadingOrder wrapper |
| `MetadataElements` | `metadata.py` |
| `Pages` | `page.py` |
| `Documents` | `pcgts.py` |

`Wrappers`, `Errors`, `Xml` and `Strings` hold the shared pieces:

- the result type and fail-fast collection of results;
- required attributes and children;
- `find` and `findall` over children;
- splitting on a separator;
- integer numerals.

Four kinds of property are proved for the element kinds:

- **Round trips.** Parsing what the serialiser writes gives back the value.
- **Idempotence.** Re-parsing what was written gives back what was parsed.
- **Error conditions.** Which error each malformed input gets.
- **Descendant tags.** The tests compare the set of descendant tags before and after a round trip. The model proves that re-serialising a parsed element writes no descendant tag that the input lacked.

Loops in the source are methods proved against the function that specifies them:

| method | loop |
|---|---|
| `ParsePoints` | the token loop of `parse_points` |
| `BuildIndex` | `__build_index` |
| `EmitContent` | the TextEquiv emission |
| `WordToNode` | the glyph loop |
| `LineToNode` | the line's successive appends, calling `EmitContent` for the alternatives loop |
| `ParseKind` | the three `findall` loops of a group |
| `ParseGroup` | a group's parse |
| `GroupToNode` | a group's children loop |
| `ParsePage` | the page's region loop |
| `PageToNode` | the page's write loop |

## Model

| member | source | states |
|---|---|---|
| Points.LessEqIsTotalOrder | page/elements/point.py:6-9 | The dataclass order on points (x, then y) is reflexive, antisymmetric, transitive and total. |
| Points.ParsePoint | page/elements/point.py:28-40 | One token parses exactly when it is two integers separated by one comma. A token that is not two comma-separated parts gives the wrong-coordinate-count error, otherwise the invalid-coordinates error. |
| Points.PointsFromString | page/elements/point.py:21-47 | A parse holds at least two points, one per space-separated token. Every error is a coordinate-count error, an invalid-coordinates error or the too-few-points error of the whole string. |
| Points.ParsePoints | page/elements/point.py:21-47 | The token loop returns exactly the specification's result: each space-separated token is checked in order, and the first error, or the too-few-points error, is returned. |
| Points.PointsFromStringSucceeds | page/elements/point.py:21-47 | Parsing succeeds exactly when there are at least two tokens and every token is two integers separated by a comma. On success the i-th point holds the two integers of the i-th token. |
| Points.FirstBadTokenRejects | page/elements/point.py:27-40 | The first malformed token decides the error. A token that is not exactly two comma-separated parts gives the wrong-coordinate-count error. Two parts that are not both integers give the invalid-coordinates error. |
| Points.TooFewPointsRejects | page/elements/point.py:42-45 | A string of one well-formed token is rejected with the too-few-points error. |
| Points.EmptyStringRejected | page/test/test_parse_points.py:36-41 | The empty string is rejected, by the coordinate-count check on its one empty token. |
| Points.ThreeCoordinatesRejected | page/test/test_parse_points.py:43-65 | A token of three integers is rejected with the wrong-coordinate-count error, whatever follows it. |
| Points.NonIntegerCoordinatesRejected | page/test/test_parse_points.py:70-80 | `"a,b c,d"` is rejected at its first token with the invalid-coordinates error. |
| Points.PointTokenRoundTrip | page/elements/point.py:50-51 | A written point has no space and splits into its two numerals, and it parses back to the point. |
| Points.PointsToString | page/elements/point.py:50-51 | Splitting the written string at spaces gives back the `x,y` token of each point, in order. |
| Points.ParseFormatted | page/elements/point.py:21-51 | `parse_points(points_to_string(ps)) == ps` for every list of at least two points. |
| Points.FormatParsed | page/elements/point.py:21-51 | A canonical points string parses, and writing the result gives back the same string. Canonical means the schema's pattern of at least two points, with natural coordinates and no leading zeros. |
| Strings.Split | page/elements/point.py:27-30 | `str.split(sep)` returns at least one part, and no part contains the separator. |
| Strings.SplitJoin | page/elements/point.py:27-30 | Splitting the join of separator-free parts gives back the parts. |
| Strings.JoinSplit | page/elements/point.py:27-30 | Joining the parts of a split gives back the string. |
| Strings.ParseIntToString | page/elements/point.py:35-38 | `int(str(i)) == i` for every integer. |
| Strings.NatNumeralRoundTrip | page/elements/point.py:35-51 | A natural numeral without leading zeros, as `str` writes it, parses to a natural number that is written back as the same numeral. |
| Errors.RequiredAttribute | page/elements/glyph.py:22-24 | A missing attribute gives the missing-attribute error, and otherwise the attribute's value is returned. |
| Errors.RequiredChild | page/elements/glyph.py:26-28 | A missing child gives the missing-element error, and otherwise the first child with the tag is returned. |
| Errors.RequiredInt | page/elements/page.py:23-29 | A missing attribute and a non-integer attribute give different errors, and otherwise the parsed integer is returned. |
| Coords.CoordsFromElement | page/elements/coords.py:14-22 | A missing `points` attribute is an error. Otherwise the result is exactly the points parse of the attribute, success and error alike. |
| Coords.CoordsToElement | page/elements/coords.py:24-27 | The element has the given tag, no children and exactly one attribute, `points`, holding the written points. |
| Coords.CoordsRoundTrip | page/test/test_parse_coords.py:22-32 | Reading back written coordinates of at least two points gives them back, under either the Coords or the Baseline tag. |
| IndexMaps.Insert | page/elements/indexed.py:43 | `index[idx] = obj` stores obj under idx, replacing any earlier entry, and keeps every key listed exactly once in insertion order: a new key is appended to the order, and an existing key keeps its place. |
| IndexMaps.IndexFrom | page/elements/indexed.py:31-43 | The index-building recursion can fail only with the missing-index error, and it keeps the table consistent and keyed. |
| IndexMaps.Indexing | page/elements/indexed.py:26-45 | An empty list gives the empty table, the only error is the missing index, and a built table is consistent with its keys. |
| IndexMaps.BuildIndex | page/elements/indexed.py:26-45 | The loop computes exactly `Indexing(objs)`. |
| IndexMaps.IndexingFails | page/elements/indexed.py:34-41 | Building fails exactly when some object has no index, and then the error is the missing-index error. |
| IndexMaps.Lookup | page/elements/indexed.py:50-54 | `get_from_index` returns a value exactly when the key is in the index, and then it returns the stored value. |
| IndexMaps.IndexingLookup | page/elements/indexed.py:26-54 | A lookup finds nothing exactly when no object has that index. Otherwise it finds the last object with that index. |
| IndexMaps.IndexingKeys | page/elements/indexed.py:26-45 | The keys of the index are exactly the indices of the objects. |
| IndexMaps.Objects | page/elements/indexed.py:47-48 | `objects()` lists one stored value per key, in key order. |
| IndexMaps.ObjectsAreStoredValues | page/elements/indexed.py:47-48 | A value is among `objects()` exactly when some key maps to it. |
| IndexMaps.IndexingValuesFromList | page/elements/indexed.py:43-48 | Every listed object comes from the input list. |
| IndexMaps.IndexingObjects | page/elements/indexed.py:26-48 | Rebuilding an index from its own `objects()` gives back the same index. |
| IndexMaps.IndexingRepeatFirst | page/elements/indexed.py:43 | Indexing the first object again before the list changes nothing: the later entry wins, and the key keeps its place. |
| Texts.TextFromElement | page/elements/text.py:15-35 | An index that is not an integer is the first error. A missing Unicode child is the second. Otherwise the text holds the parsed index (None when absent), the Unicode text and the optional PlainText text. |
| Texts.TextToElement | page/elements/text.py:8-12 | The index attribute is present exactly when there is an index. Unicode comes first, then PlainText when there is one. |
| Texts.TextRoundTrip | page/elements/text.py:15-35 | `from_element(to_element(t)) == t` for every text. |
| Texts.TextChildOrderIrrelevant | page/elements/text.py:16-17 | Unicode and PlainText are found by tag, so their order does not change the result. |
| Texts.InvalidIndexBeforeMissingUnicode | page/elements/text.py:19-28 | When the index is invalid and Unicode is missing, the index error wins. |
| Texts.TextTagsWithin | page/test/test_parse_text.py:49-53 | A re-serialised text writes no descendant tag that the input lacked. |
| Alternatives.ContentFromTexts | page/elements/line.py:44-58 | No TextEquiv gives the single form with no text. One TextEquiv gives the single form with that text, and fails exactly when it fails, with its error. Two or more succeed exactly when each parses and carries an index, and then give the indexed form. Otherwise the error is the first failing text's error, or the missing-index error when every text parses. |
| Alternatives.ContentFromManyTexts | page/elements/line.py:52-58 | Two or more alternatives give the index built from their parses in document order. |
| Alternatives.IndexedCurrentText | page/elements/line.py:81-85 | The current text of an indexed element is absent exactly when no alternative has index 0. Otherwise it is the last alternative with index 0. |
| Alternatives.ContentNodes | page/elements/line.py:90-96 | Every written alternative is a TextEquiv element. |
| Alternatives.EmitContent | page/elements/line.py:90-96 | The emission loop writes exactly `ContentNodes(c)`: the single text, or the index-0 text followed by every alternative of the index. |
| Alternatives.WrittenTexts | page/elements/line.py:90-96 | The indexed writer emits the index-0 text, when there is one, and then `objects()`, and each of these elements parses back. |
| Alternatives.IndexedRoundTrip | page/elements/line.py:44-58 | Re-parsing an indexed element's written alternatives gives back its index. |
| Alternatives.ContentRoundTrip | page/test/test_parse_word.py:79-132 | Re-parsing the written alternatives of a well-formed single or indexed element gives it back. |
| Alternatives.IndexedTextsParsedFrom | page/elements/indexed.py:43-48 | Every alternative of a parsed index comes from an input TextEquiv, and so does any current text. |
| Alternatives.EmittedTexts | page/elements/line.py:90-96 | Every text the writer emits is the current text or an alternative of the index. |
| Alternatives.ContentTagsWithin | page/test/assert_utils.py:5-11 | Every written alternative is matched by an input TextEquiv with the same tag and no fewer descendant tags. |
| Glyphs.GlyphFromElement | page/elements/glyph.py:21-38 | A missing id comes first, then the missing Coords, then a Coords error, then the error of a failing first TextEquiv. With a good header, the glyph parses exactly when there is no TextEquiv or the first parses; any further TextEquivs are ignored. On success the glyph holds the id, the parsed Coords, and the parse of its first TextEquiv child, or no text when it has none. |
| Glyphs.GlyphToElement | page/elements/glyph.py:40-46 | The element has the id attribute only, its Coords first, then its text when there is one. |
| Glyphs.GlyphRoundTrip | page/elements/glyph.py:21-46 | `from_element(to_element(g)) == g` for a glyph of at least two points. |
| Glyphs.GlyphTagsWithin | page/test/assert_utils.py:5-11 | A re-serialised glyph writes no descendant tag that the input lacked. |
| Words.WordFromElement | page/elements/word.py:20-35 | A missing id comes first, then the missing Coords. With both present, the first failing stage gives the error, in this order: the Coords, the Glyph children, the TextEquiv children. The word parses exactly when none fails. On success the word holds the id, its Coords, every Glyph child parsed in order, and the alternatives of its TextEquiv children. |
| Words.WordToNode | page/elements/word.py:37-46 | The glyph loop builds exactly `WordElement(w)`: the id, the Coords, each glyph in order, then the text children `ContentNodes` gives (see Left out for the text). |
| Words.WordElementChildren | page/elements/word.py:37-46 | In a written word the first Coords is the word's own, the Glyph children are its glyphs, and the TextEquiv children are its alternatives. |
| Words.GlyphsRoundTrip | page/elements/word.py:42-43 | Written glyphs parse back to the same list. |
| Words.WordRoundTrip | page/test/test_parse_word.py:53-57 | `from_element(to_element(w)) == w` for a well-formed word. |
| Words.WordTagsWithin | page/test/test_parse_word.py:53-57 | A re-serialised word writes no descendant tag that the input lacked. |
| Words.GlyphsCovered | page/test/assert_utils.py:5-11 | Every written glyph is matched by an input Glyph with no fewer descendant tags. |
| Lines.LineFromElement | page/elements/line.py:22-58 | A missing id comes first, then the missing Coords. With both present, the first failing stage gives the error, in this order: the Coords, a present Baseline, the Word children, the TextEquiv children. The line parses exactly when none fails. On success the line holds its Coords, an optional Baseline exactly when the element has one, its Words in order, and the zero-one-many split of its TextEquivs. |
| Lines.LineToNode | page/elements/line.py:60-72 | The loop builds the line element: id, Coords, the Baseline when present, then the alternatives. |
| Lines.LineElementChildren | page/elements/line.py:60-72 | A written line's Coords and Baseline are its own, it has no Word children, and its TextEquivs are its alternatives. |
| Lines.LineRoundTrip | page/elements/line.py:22-72 | `from_element(to_element(l)) == l` for a well-formed line without words. |
| Lines.LineTagsWithin | page/test/assert_utils.py:5-11 | A re-serialised line writes no descendant tag that the input lacked. |
| Regions.TypeNameRoundTrip | page/elements/region.py:34-51 | Each layout role's tag name maps back to that role. |
| Regions.RegionTypeNames | page/elements/region.py:34-51 | A name is accepted exactly when it is some role's tag name, the accepted role has that name, and distinct roles have distinct names. |
| Regions.SeventeenRegionTypes | page/elements/region.py:34-51 | The closed set holds seventeen pairwise distinct roles. |
| Regions.ParseRegionType | page/elements/region.py:66-71 | Parsing succeeds exactly when `type` is present and names a role, and then gives that role. Otherwise the invalid-type error carries the value it saw. |
| Regions.RegionChecks | page/elements/region.py:17-31 | The region errors come in this order: an invalid type, a missing id, a missing Coords, a missing `points` attribute, then the points parse error. With the header and child regions parsed, a failing TextLine child gives the region's error. A parsed region's type, id, points, children and lines come from those parts. |
| Regions.RegionFromElement | page/elements/region.py:64-76 | A region parses exactly when its header (type, id, Coords), its child regions and its TextLine children all parse. The parsed region holds exactly those children and those lines. |
| Regions.TryRegionFromElement | page/elements/page.py:39-45 | A non-region tag gives "not a region". A TextRegion gives the region's parse, success and error alike. |
| Regions.ChildRegionsAreRegionElements | page/elements/region.py:17-31 | Scanning all children with parse-or-skip equals parsing every TextRegion child in order, failing fast. |
| Regions.ChildRegionsFrom | page/elements/region.py:17-31 | Every child region is the parse of some direct TextRegion child. |
| Regions.NestedRegionFails | page/test/test_parse_region.py:136-144 | A malformed nested region, such as the Coords-less child of the fixture at test_parse_region.py:37-45, fails the whole region with the first failing child's error. |
| Regions.ChildRegionsFailAt | page/elements/page.py:39-45 | Any malformed TextRegion among the children fails the scan, with the first failure's error. |
| Regions.RegionStopsAtChildren | page/elements/region.py:17-31 | When the header parses, a failing child scan is the region's error. |
| Regions.RegionToElement | page/elements/region.py:65-76 | A region is written under the TextRegion tag. |
| Regions.RegionElementChildren | page/elements/region.py:65-76 | A written region's first Coords is its own, its TextRegion children are its child regions, and its TextLine children are its lines. |
| Regions.HeaderRoundTrip | page/elements/region.py:17-31 | A written region's header reads back as its type, id and points. |
| Regions.RegionRoundTrip | page/test/test_parse_region.py:82-93 | `from_element(to_element(r)) == r` for a well-formed region tree of any depth. |
| Regions.RegionsRoundTrip | page/test/test_parse_region.py:103-134 | A list of written regions parses back to the same list. |
| Regions.ChildRegionsCovered | page/test/assert_utils.py:5-11 | Every written child region is matched by an input child with no fewer descendant tags. |
| Regions.RegionParts | page/elements/region.py:17-31 | A parsed region has a Coords child, its children are the child scan, and its lines are the TextLine parse. |
| Regions.RegionTagsWithin | page/test/test_parse_region.py:136-162 | A re-serialised region writes no descendant tag that the input lacked. |
| RegionRefs.RefFromElement | page/elements/reading_order/region_ref.py:14-21 | A missing `regionRef` is an error, and otherwise the reference has no index. |
| RegionRefs.RefIndexedFromElement | page/elements/reading_order/region_ref.py:34-51 | The errors come in this order: a missing `regionRef`, a missing index, then an invalid index. Success happens exactly when all three attributes are good, and holds the referenced id and the index. |
| RegionRefs.RefToElement | page/elements/reading_order/region_ref.py:23-26 | The tag is chosen by whether there is an index. The attributes are exactly `regionRef`, plus `index` for the indexed form. |
| RegionRefs.RefRoundTrip | page/test/test_parse_region_ref.py:35-61 | Each form reads back what it writes. |
| Groups.ChildTagsDistinct | page/elements/reading_order/ordered_group.py:32-47 | The six child tags are pairwise distinct: three kinds times indexed or not. |
| Groups.ChildFromElement | page/elements/reading_order/ordered_group.py:74-95 | An indexed group checks its index before parsing the group. A plain group is the group parse. A reference is the reference parse. |
| Groups.GroupFromElement | page/elements/reading_order/ordered_group.py:25-49 | A missing id is an error. A parsed group has the requested kind, no index, its id and its optional caption. |
| Groups.GroupFromElementSteps | page/elements/reading_order/ordered_group.py:25-49 | With the id present, the first failing `findall` loop gives the error, in this order: ordered groups, then unordered groups, then region references, for both kinds of group. The group parses exactly when no loop fails, and its children are the three loops' results in that order. |
| Groups.ParseKind | page/elements/reading_order/unordered_group.py:25-32 | Each `findall` loop computes exactly the fail-fast parse of the children with one tag. |
| Groups.ParseGroup | page/elements/reading_order/ordered_group.py:25-49 | The three loops in sequence compute exactly the group parse. |
| Groups.GroupAttrs | page/elements/reading_order/ordered_group.py:97-109 | The attributes are exactly `id`, plus `index` and `caption` when present, with their values. |
| Groups.RoToElement | page/elements/reading_order/ordered_group.py:51-62 | A child is written under the tag for its kind and for whether it has an index. |
| Groups.RoNodes | page/elements/reading_order/unordered_group.py:36-47 | The children are written in order, one element each. |
| Groups.GroupToNode | page/elements/reading_order/unordered_group.py:81-93 | The children loop builds exactly the group's element. |
| GroupLaws.GroupedSplit | page/elements/reading_order/ordered_group.py:30-49 | The children sorted by kind (ordered groups, unordered groups, then references) are the three runs concatenated. |
| GroupLaws.FindAllOfKind | page/elements/reading_order/ordered_group.py:51-62 | Looking up one child tag in the written children gives the written children of that kind. |
| GroupLaws.RoRoundTrip | page/test/test_parse_ro_ordered_group.py:81-106 | Every well-formed group or reference reads back what it writes. |
| GroupLaws.GroupRoundTrip | page/test/test_parse_ro_unordered_group.py:39-60 | A written group parses back to the group without its index. |
| GroupLaws.KindRoundTrip | page/elements/reading_order/ordered_group.py:32-47 | Each `findall` loop over a written group gives back that group's children of the loop's kind. |
| GroupLaws.ParsedWellFormed | page/elements/reading_order/ordered_group.py:74-95 | A parsed child is well formed and has the kind it was parsed as. |
| GroupLaws.GroupParsedWellFormed | page/elements/reading_order/ordered_group.py:25-49 | A parsed group is well formed: its children are grouped by kind, and they are indexed exactly in an ordered group. |
| GroupLaws.KindParsedWellFormed | page/elements/reading_order/ordered_group.py:32-47 | Every child one loop parses is well formed and of the loop's kind. |
| GroupLaws.GroupChildrenByKind | page/elements/reading_order/ordered_group.py:30-49 | A parsed group's children come grouped by kind. The run of each kind matches, one to one and in document order, the child elements with that kind's tag. |
| GroupLaws.GroupKindRun | page/elements/reading_order/unordered_group.py:23-34 | A parsed group's children of one kind are exactly that kind's loop result. |
| GroupLaws.KindChildrenParsed | page/elements/reading_order/unordered_group.py:25-32 | One loop's results are, pointwise, the parses of the elements with its tag. |
| GroupLaws.ParseIdempotent | page/test/test_parse_ro_ordered_group.py:108-118 | Writing and re-parsing a parsed child gives the same child. |
| GroupLaws.ParsedTagsWithin | page/test/assert_utils.py:5-11 | A re-serialised child writes no descendant tag that the input lacked. |
| GroupLaws.GroupTagsWithin | page/test/assert_utils.py:5-11 | A re-serialised group, with or without an index, writes no descendant tag that the input lacked. |
| GroupLaws.KindCovered | page/test/assert_utils.py:5-11 | Every written child of one kind is matched by an input child. |
| GroupLaws.ChildCovered | page/test/assert_utils.py:5-11 | The i-th written child of a kind is matched by the i-th input element with its tag. |
| GroupLaws.OrderedGroupIndex | page/elements/reading_order/ordered_group.py:15-23 | An ordered group's index builds. A lookup finds nothing exactly when no child has that index, and otherwise finds the last child with it. |
| Groups.GroupIndex | page/elements/reading_order/ordered_group.py:20-22 | The index builds exactly when every child carries an index, and otherwise fails with the missing-index error. A built index lists each key once and stores every child under its own index. |
| Groups.GetFromIndex | page/elements/indexed.py:50-54 | A lookup gives None exactly when no child has that index. Otherwise it gives the last child with it. |
| ReadingOrders.ReadingOrderFromElement | page/test/test_parse_reading_order.py:30-42 | An OrderedGroup child is parsed first. Failing that, an UnorderedGroup child. Failing both, the element is an error. |
| ReadingOrders.ReadingOrderToElement | page/test/test_parse_reading_order.py:30-42 | The written element holds exactly the root group. |
| ReadingOrders.ParsedReadingOrder | page/test/test_parse_reading_order.py:30-42 | A parsed root is a group without an index. It is unordered exactly when there is no OrderedGroup child. |
| ReadingOrders.ReadingOrderRoundTrip | page/test/test_parse_reading_order.py:30-42 | A well-formed reading order reads back what it writes. |
| ReadingOrders.ReadingOrderIdempotent | page/test/test_parse_reading_order.py:44-50 | Writing and re-parsing a parsed reading order gives the same one. |
| ReadingOrders.ReadingOrderTagsWithin | page/test/assert_utils.py:5-11 | A re-serialised reading order writes no descendant tag that the input lacked. |
| MetadataElements.DateChild | page/elements/metadata.py:31-35 | A date child must be present. It parses exactly when it has a text that the date parser accepts, and any other case gives the invalid-date error. |
| MetadataElements.MetadataFromElement | page/elements/metadata.py:23-43 | The errors come in this order: a missing Creator, then Created, then LastChange. The creator defaults to "", and there are comments exactly when a Comments child with a text exists. |
| MetadataElements.MetadataToElement | page/elements/pcgts.py:36-43 | Creator, Created and LastChange are written, then Comments when there are comments, each holding its text. |
| MetadataElements.MetadataRoundTrip | page/elements/metadata.py:23-43 | Metadata reads back what it writes when the date parser reads the formatter's dates back. |
| MetadataElements.MetadataTagsWithin | page/test/assert_utils.py:5-11 | Re-serialised metadata writes no descendant tag that the input lacked. |
| Pages.PageReadingOrder | page/elements/page.py:33-37 | An absent ReadingOrder gives None. Otherwise the result is the parse of the first ReadingOrder, whose errors propagate. |
| Pages.PageFromElement | page/elements/page.py:20-47 | The imageWidth error comes first, then imageHeight, then the reading order's error, then the region scan's error. Success happens exactly when both sizes, the reading order and the region scan succeed, and then the page holds each of them. |
| Pages.ParsePage | page/elements/page.py:39-45 | The region loop over all children, with parse-or-skip, computes exactly the page parse. |
| Pages.PageAttrs | page/elements/page.py:49-63 | The attributes are exactly the two sizes, as numerals, and the file name when present. |
| Pages.PageToNode | page/elements/page.py:49-63 | The write loop builds exactly the page element: attributes, the reading order when present, then the regions. |
| Pages.PageRegionsAreDirectChildren | page/elements/page.py:39-45 | The page's regions are, one to one and in order, the parses of its direct TextRegion children. |
| Pages.MalformedRegionFailsPage | page/elements/page.py:39-45 | A malformed TextRegion child fails the page. |
| Pages.PageRoundTrip | page/test/test_parse_page.py:78-109 | `from_element(to_element(p)) == p` for a well-formed page. |
| Pages.ReadingOrderPart | page/elements/page.py:33-37 | The written reading order reads back. |
| Pages.RegionsPart | page/elements/page.py:39-45 | The region scan over a written page gives back its regions. |
| Pages.WrittenRegions | page/elements/page.py:60-61 | The region scan over written regions gives them back. |
| Pages.PageTagsWithin | page/test/test_parse_page.py:97-109 | A re-serialised page writes no descendant tag that the input lacked. |
| Pages.TextRegions | page/elements/page.py:65-68 | `text_regions` yields only TextRegions taken from the page. TextRegion is the only region kind modelled, so the filter is the identity (`TextRegionsAll`). |
| Pages.TextRegionsAll | page/elements/page.py:65-68 | Every modelled region is a TextRegion, so `text_regions` keeps them all, in order. |
| Pages.PageLinesAreRegionLines | page/elements/page.py:70-73 | A line is among the page's lines exactly when it is in some region. The lines are the regions' lines concatenated in region order. |
| Pages.PageLines | page/elements/page.py:70-73 | A line is among the page's lines exactly when it is in some region of the page. |
| Documents.PcGtsFromElement | page/elements/pcgts.py:19-34 | A missing Metadata is the first error and a missing Page the second. Then the Metadata and Page errors propagate in that order, and otherwise the document holds the pcGtsId, the metadata and the page. |
| Documents.FromRoot | page/elements/pcgts.py:45-54 | A root that is not PcGts is "not a page document", which is not an error. A PcGts root gives the document parse. |
| Documents.PcGtsToElement | page/elements/pcgts.py:36-43 | `pcGtsId` is written only when present, then the Metadata and Page elements. |
| Documents.PcGtsRoundTrip | page/test/test_parse_pcgts.py:37-55 | A document reads back what it writes, through `from_element` and the root probe, when the dates read back. |
| Documents.PcGtsTagsWithin | page/test/assert_utils.py:5-11 | A re-serialised document writes no descendant tag that the input lacked. |

## Left out

- XML namespaces, lxml itself and file I/O are not modelled. The tree is given as a value, and tags are local names.
- PcGts.from_file opens a file. Only its root-tag probe is modelled, as `FromRoot`.
- Date parsing and formatting: the library's date parser is a parameter, `parseDate`, and so is the formatter that the serialiser would use, `formatDate`.
- `int()` is simplified to an optional sign followed by decimal digits. Surrounding whitespace, underscores and non-ASCII digits are not modelled.
- Points.LessEqIsTotalOrder: the model covers the order only. `__hash__`, `__str__` and `__repr__` of Point are display helpers and are not modelled.
- Texts.TextToElement: text.py defines no `to_element`, though its callers call one. The model writes the index attribute, then Unicode, then PlainText when present.
- MetadataElements.MetadataToElement: metadata.py defines no `to_element`, though pcgts.py calls one. The model writes the four children with their texts.
- MetadataElements.MetadataFromElement: the source has three error cases that the model replaces with named errors:
  - a missing Creator, Created or LastChange child raises AttributeError in the source; here it is the missing-element error;
  - a date child with no text raises TypeError; here it is the invalid-date error;
  - one invalid-date error value serves both dates.
- Words.WordFromElement: word.py:20-35 never reads a Glyph child, and :35 calls the four-field `Word` with three arguments, which raises TypeError. The model parses the Glyph children between the Coords and the TextEquivs, as test_parse_word.py:101-110 expects. Its glyph errors and their place in the error order are the model's own.
- Words.WordFromElement: word.py:31-35 keeps every TextEquiv in a plain list. The model splits them as lines do, so two or more texts without an index fail with the missing-index error. This follows indexed.py:35-40, which names Word among the indexed elements, and test_parse_word.py:112-119, which expects an IndexedWord.
- Words.WordToNode: word.py:45-46 writes `self.text`, which is not a field of Word. The model writes the text children of the word's alternatives as lines do: the single text, or the index-0 text followed by every alternative.
- Glyphs.GlyphToElement: glyph.py:40-46 builds the element but has no return statement. The model returns it.
- RegionRefs.RefIndexedFromElement: region_ref.py:37 calls `super()` inside a static method, which raises TypeError before line 51 is reached. The model reads the plain reference first, which is what that call evidently intends, and then the index. Separately, region_ref.py:51 passes the whole element where the reference id is expected. The model stores the `regionRef` attribute, as `RegionRef.from_element` does.
- Groups.ChildFromElement: the indexed groups' `from_element` calls `super()` inside a static method, at ordered_group.py:91 and unordered_group.py:75, which raises TypeError. The model reads the index at ordered_group.py:78-89 first and then parses the group as the plain class does, which is what that `super()` call evidently intends.
- unordered_group.py:50-56 and :77-79 disagree: the constructor expects separate group and reference lists, and the caller passes one list. The model gives an indexed unordered group the same shape as a plain group, plus its index.
- Groups.GroupFromElement: the header is read by `super()._from_element` at ordered_group.py:29 and by `Group._from_element` at unordered_group.py:22, but group.py does not define `_from_element`, and `super()` inside a static method raises TypeError. The model reads a required `id` and an optional `caption`.
- Groups.ChildFromElement: ordered_group.py:6 imports `RegionRefIndexed` from a module path that differs from the file's. The model uses region_ref.py's definitions.
- The ReadingOrder wrapper is not defined in the files modelled. Its behaviour comes from test_parse_reading_order.py:30-42. OrderedGroup is preferred when both kinds of child are present, and an element with neither is an error.
- Regions.TryRegionFromElement: `Region.try_from_element`, which page.py:41-45 calls, is not defined in region.py. The model gives a TextRegion child its region parse and every other tag "not a region".
- Regions.RegionChecks: inside class TextRegion, region.py:73 calls `Region.__parse_region`. Python mangles that name to `Region._TextRegion__parse_region`, which does not exist, so every TextRegion with a valid `type` raises AttributeError there. The model follows the evident intent of calling the Coords and points checks of region.py:16-31.
- Regions.RegionChecks: region.py does not read the region `id`, but the tests at test_parse_region.py:87 and :101 read one back. The model makes `id` a required attribute, checked after `type` and before Coords.
- Regions.RegionParts: region.py:30 and region.py:75 leave the nested regions and the lines as TODOs. The model scans the children with parse-or-skip, as for the page at page.py:39-45, and parses every TextLine child.
- Regions.RegionToElement: region.py does not define a `to_element`. The model writes the inverse of the parser: `id` and `type`, Coords, the child regions, then the lines.
- Regions.SeventeenRegionTypes: only TextRegion is a region kind. The other region kinds the schema has are not in region.py.
- Baseline is not defined in the files modelled. It is modelled as the Coords codec under the Baseline tag.
- Lines.LineRoundTrip: line.py:60-72 does not write the words, so only a line without words is required to read back.
- Alternatives.EmitContent: `IndexedLine.to_element` writes the index-0 text and then every alternative, so that text appears twice. The model writes the same. Its round trip, `ContentRoundTrip`, holds because re-indexing the repeated first entry changes nothing (`IndexingRepeatFirst`). Well-formedness, `ContentWellFormed`, has two cases. When the index has key 0, that key must be listed first. Without key 0, the index must hold at least two alternatives. That second case is a real limit of the source. Take an IndexedLine whose two TextEquivs both carry index 5: it builds a one-entry index. line.py:69-70 then writes no current text, and line.py:93-94 writes one TextEquiv. Re-parsing that element gives a plain Line (line.py:49-53). So such a line does not survive the round trip in the source either.
- Pages.PageFromElement differs from page.py:20-47 or its tests in five ways:
  - a missing imageWidth or imageHeight makes `int(None)` raise TypeError; here it is the missing-attribute error;
  - the single invalid-size error of page.py:26-29 is split into one invalid-attribute error per attribute;
  - `imageFilename` is optional;
  - page.py:49-63 does not write Metadata, and the model follows it;
  - test_parse_page.py:71-75 expects a Page without a Metadata child to raise. page.py:20-47 never reads Metadata, and the model follows page.py, so such a page parses; in PAGE-XML, Metadata belongs to PcGts.
- Pages.PageAttrs: page.py:31 leaves `image_filename` as None when the attribute is missing. page.py:55 then passes None to `set`, which lxml rejects with TypeError. The model writes no `imageFilename` attribute instead. So `PageRoundTrip` and `Documents.PcGtsRoundTrip` also cover pages without a file name, which the source cannot write.
- Pages.PageRoundTrip: the round trip requires a well-formed reading order and well-formed regions.
- Coords.CoordsRoundTrip, Glyphs.GlyphRoundTrip, Words.WordRoundTrip and Regions.RegionRoundTrip: each round trip requires at least two points in every Coords, because `parse_points` rejects fewer.
- Texts.TextTagsWithin, Alternatives.ContentTagsWithin, Glyphs.GlyphTagsWithin, Words.WordTagsWithin, Lines.LineTagsWithin, Regions.RegionTagsWithin, GroupLaws.ParsedTagsWithin, GroupLaws.GroupTagsWithin, ReadingOrders.ReadingOrderTagsWithin, MetadataElements.MetadataTagsWithin, Pages.PageTagsWithin and Documents.PcGtsTagsWithin: the tests compare the sets of descendant tags for equality. These lemmas prove inclusion: the output has no descendant tag the input lacked. The parsers skip unknown tags, so equality does not hold for every input.
- Pages.TextRegions: TextRegion is the only region kind modelled, so the type filter is the identity (`TextRegionsAll`). The filter is kept to mirror page.py:65-68.
