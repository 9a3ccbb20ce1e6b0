# Streaming record builders for CML molecules and JATS-style articles

This project models the two SAX content handlers of UBU-ProLe in Dafny and
proves properties about them. Each handler turns the element, text and comment
events of one XML document into records:

* **`CMLHandler`** (`P6/CMLParser.java`) builds `Molecule` records. A
  `molecule` element opens a record on a record stack. Its `formula` child names
  the record after its `title` attribute, and each `atomArray.atom` child adds
  an atom of its `elementType`. Closing a `molecule` element hands the record to
  the record below it as a sub-molecule, or to the finished list when it was the
  outermost. At the end of the document the handler reports three names: the
  molecule with the most atoms (counting sub-molecules), the one with the most
  direct sub-molecules, and the one with the most distinct elements.
* **`XMLContentHandler`** (`P5/XMLParser.java`) builds `Article` records. Text
  under fixed paths below an `article` element sets its title, subtitle and
  authors, appends to its abstract and lowers its publication year. Section
  elements are counted. The handler also keeps the longest namespace URI seen
  and the number of comments. At the end it reports the full title of the
  article with the longest abstract.

Both handlers keep the stack of open element names (`XMLLocator`). They address
each event by the dotted path of that stack, taken relative to the record. For
molecules, the relative path starts at the innermost open `molecule`. For
articles, it is the path below the `articles` root. In a document whose root
is not `articles`, it is the whole path, and the `articles` root alone has
the relative path `..`.

The modules:

* `Common`: an optional value, and the outcome of an event handler. The outcome
  either completes or throws `NullPointerException`, `EmptyStackException` or
  `NumberFormatException`.
* `Strings`: `startsWith`, `trim`, `length()` in UTF-16 units,
  `Integer.parseInt`, the decimal rendering of a count, and the `compareTo`
  order.
* `Paths`: the dotted path, the record-relative path, and the `Locator` class
  for `XMLLocator`.
* `Selection`: `Stream.max`, which keeps the first of equal maxima.
* `Chemistry`: the value of a molecule and the roll-up queries on it. These are
  the element map, the multiset of atoms, the formula, the name, the size
  category, and the number of records in a tree.
* `Molecules`: the `Molecule` class. Its fields change in place, and it carries
  a ghost value `Model` and footprint `Repr`.
* `CmlHandler`: the molecule handler as a class. It carries a ghost ledger of
  the footprints and values of the open and finished molecules. Its invariant
  says every molecule created is accounted for exactly once, and no two records
  share a molecule.
* `Articles`: the `Article` class, and what its setters add up to.
* `XmlHandler`: the article handler as a class. Its invariant is that an
  article is being read exactly when an `article` element is open, and articles
  never nest.

Lengths are compared as Java's `String.length()` counts them, in UTF-16 code
units: a character beyond the Basic Multilingual Plane counts twice.

Java exceptions are modelled as `Outcome.Fail`. The state is left as Java
leaves it at the throw: for example, the element is already pushed when
`startElement` fails.

The model follows the code in these places:

* Title and subtitle text overwrites the field, so only the last piece of text
  read for it is kept.
* Every comment is counted, including comments inside a DTD: the DTD callbacks
  are empty.
* A `formula` element with no `title` attribute throws a
  `NullPointerException`.
* Abstract fragments are separated by a newline.

## Model

| member | source | states |
|---|---|---|
| Paths.Locator.constructor | P6/CMLParser.java:316 | a new locator has no open element |
| Paths.Locator.Push | P6/CMLParser.java:323-325 | entering an element puts its name on top of the stack |
| Paths.Locator.Pop | P6/CMLParser.java:330-332 | leaving removes the top name; on an empty stack it throws `EmptyStackException` and the stack is unchanged |
| Paths.Locator.Element | P5/XMLParser.java:182-184 | the innermost element is the top of the stack, and there is none exactly when the stack is empty |
| Paths.Locator.Level | P5/XMLParser.java:186-188 | the depth is zero exactly when there is no innermost element |
| Paths.PathReadsBack | P5/XMLParser.java:194-196 | the path of a non-empty stack of dot-free names cuts back into the stack |
| Paths.PushThenPop | P5/XMLParser.java:174-180 | entering and then leaving an element restores the stack |
| Paths.SplitJoin | P6/CMLParser.java:352-354 | the dotted path of dot-free names can be cut back into exactly those names |
| Paths.JoinPush | P6/CMLParser.java:352-354 | pushing a name extends the path by a dot and that name |
| Paths.JoinSplit | P5/XMLParser.java:194-196 | the path of a stack is the path of its lower part, a dot, and the path of its upper part |
| Paths.Innermost | P6/CMLParser.java:182-186 | the backward scan finds the last occurrence of the marker, with no marker above it, or reports that the marker is absent |
| Paths.RelativePath | P6/CMLParser.java:180-188 | with no `molecule` open the relative path is the whole path; otherwise it starts with `molecule`; either way it is a suffix of the whole path |
| Paths.RelativePathIsMarker | P6/CMLParser.java:180-188 | the relative path is the bare marker exactly when the element on top of the stack is the marker |
| Paths.MarkerPathMeansMarkerOpen | P6/CMLParser.java:180-188 | a relative path of the form `molecule.x` over dot-free names implies that a `molecule` is open |
| Paths.InnermostMarkerWins | P6/CMLParser.java:180-188 | a nested molecule's formula is addressed from the innermost molecule; with no molecule open, the whole path is used |
| Paths.Occurrences | P6/CMLParser.java:257-260 | counts the marker names on the stack; the count is positive exactly when a marker is open |
| Paths.OccurrencesPush | P6/CMLParser.java:257-260 | pushing a name adds one occurrence exactly when the name is the marker |
| Selection.FirstMax | P6/CMLParser.java:203-206 | the index chosen by `Stream.max` holds a greatest key, and every earlier key is strictly smaller |
| Selection.FirstMaxStep | P6/CMLParser.java:203-206 | one more key replaces the maximum so far only when it is strictly greater |
| Selection.FirstMaxUnique | P6/CMLParser.java:203-206 | the first index holding the greatest key is the only index `Stream.max` can return |
| Selection.TieKeepsFirst | P5/XMLParser.java:84-86 | of two equal maxima, the earlier one is reported |
| Strings.Trim | P5/XMLParser.java:134 | `trim` returns the infix left after cutting every blank (up to U+0020) from both ends; what is left neither starts nor ends with a blank |
| Strings.Decimal | P6/CMLParser.java:494 | a count renders as at least one digit, with no leading zero, and reads back as the count |
| Strings.ParseIntIsNumeral | P5/XMLParser.java:244 | `Integer.parseInt` succeeds exactly on an optional sign followed by one or more digits whose value is an int, and returns that value; any other text throws `NumberFormatException` |
| Strings.NumeralUnique | P5/XMLParser.java:244 | a numeral has a single value |
| Strings.ParseIntAccepts | P5/XMLParser.java:244 | `007`, `+5` and `-0` parse to 7, 5 and 0 |
| Strings.ParseIntRejects | P5/XMLParser.java:244 | the empty text, a lone `+` and `12a` are rejected |
| Strings.ParseIntRange | P5/XMLParser.java:244 | 2147483648 is rejected, and -2147483648 parses to the least int |
| Strings.ParseDecimal | P5/XMLParser.java:244 | every non-negative int, rendered in decimal, parses back to itself |
| Strings.ParseNegativeDecimal | P5/XMLParser.java:244 | a minus sign before the rendering of `n` parses to `-n`, down to the least int |
| Strings.Utf16Length | P5/XMLParser.java:98 | `length()` counts at least one and at most two units per character |
| Strings.Utf16LengthInPlane | P5/XMLParser.java:98 | within the Basic Multilingual Plane, `length()` counts characters |
| Strings.LexLessIrreflexive | P6/CMLParser.java:493 | no symbol sorts before itself |
| Strings.LexLessTransitive | P6/CMLParser.java:493 | the `compareTo` order is transitive |
| Strings.LexLessTotal | P6/CMLParser.java:493 | of two different symbols, one sorts before the other |
| Strings.LexLessAsymmetric | P6/CMLParser.java:493 | two symbols never sort before each other |
| Chemistry.AddCount | P6/CMLParser.java:416-423 | a new element starts at the added count; an existing one grows by it; every other element keeps its count |
| Chemistry.MergeCounts | P6/CMLParser.java:475-483 | the merged map has the elements of both maps, each with the sum of its two counts |
| Chemistry.MapBag | P6/CMLParser.java:459-463 | each element occurs in the flat atom list as often as its count |
| Chemistry.AtomBagMatchesElementMap | P6/CMLParser.java:457-483 | `getAllElements` and `getElementMap` agree element by element over the whole tree |
| Chemistry.AtomCountIsTotal | P6/CMLParser.java:457-468 | the number of atoms of a molecule is the sum of its rolled-up counts |
| Chemistry.OrganicMeansCarbonAtom | P6/CMLParser.java:505-507 | carbon is among the rolled-up elements exactly when some atom of the tree is carbon |
| Chemistry.RollUpExample | P6/CMLParser.java:475-483 | CO2 with an H2O sub-molecule rolls up to C1 H2 O3 |
| Chemistry.Insert | P6/CMLParser.java:493 | inserting a new symbol keeps the list strictly ascending and adds exactly that symbol |
| Chemistry.SortedKeys | P6/CMLParser.java:491-493 | the element symbols can be listed in strictly ascending order |
| Chemistry.SortedUnique | P6/CMLParser.java:493 | two strictly ascending lists of the same symbols are equal, so the formula does not depend on map order |
| Chemistry.FormulaOfSortedKeys | P6/CMLParser.java:490-496 | rendering any ascending listing of the symbols gives the formula |
| Chemistry.FormulaExample | P6/CMLParser.java:490-496 | C1 H2 O3 renders as `CH2O3`: symbols sorted, counts of one left out |
| Chemistry.Categorization | P6/CMLParser.java:514-526 | the category is empty exactly when there are no atoms |
| Chemistry.CategorizationSeparates | P6/CMLParser.java:514-526 | two totals share a category exactly when they are equal or both above three |
| Chemistry.AdoptAddsRecords | P6/CMLParser.java:439-441 | attaching a sub-molecule adds exactly the records of its tree |
| Chemistry.RecordsIgnoreContents | P6/CMLParser.java:262-270 | naming a molecule or adding atoms to it leaves the number of records unchanged |
| Molecules.Molecule.constructor | P6/CMLParser.java:380-382 | a new molecule has no name, no atoms and no sub-molecules, and owns only itself |
| Molecules.Molecule.SetName | P6/CMLParser.java:396-398 | sets the name and keeps the atoms, the sub-molecules and the footprint |
| Molecules.Molecule.AddElementCount | P6/CMLParser.java:416-423 | adds the count to the element (see `AddCount`); the rest of the molecule is unchanged |
| Molecules.Molecule.AddElement | P6/CMLParser.java:430-432 | adds one atom of the element; the rest of the molecule is unchanged |
| Molecules.TreeAppend | P6/CMLParser.java:439-441 | a separate valid molecule can join a tree as its last sub-molecule, and the tree stays valid |
| Molecules.Molecule.AddMolecule | P6/CMLParser.java:439-441 | a separate finished molecule becomes the last sub-molecule; the tree stays valid and absorbs the child's footprint |
| Molecules.Molecule.GetAllElements | P6/CMLParser.java:457-468 | the list holds every atom of the molecule and of all its sub-molecules, each once |
| Molecules.Molecule.GetElementMap | P6/CMLParser.java:475-483 | returns the rolled-up map of the whole tree, leaving the own atoms unchanged |
| Molecules.Molecule.GetFormula | P6/CMLParser.java:490-496 | returns the formula of the rolled-up map |
| Molecules.Molecule.GetName | P6/CMLParser.java:406-408 | returns the name set from a title, otherwise the formula |
| Molecules.Molecule.IsOrganic | P6/CMLParser.java:505-507 | true exactly when some atom of the tree is carbon |
| Molecules.Molecule.GetAtomicCategorization | P6/CMLParser.java:514-526 | the size category of the total number of atoms in the tree |
| Molecules.ExpandAtoms | P6/CMLParser.java:459-463 | lists each element of the map as many times as its count |
| Molecules.AddEntries | P6/CMLParser.java:477-481 | adding every entry of a sub-molecule's map gives the key-by-key sum |
| Molecules.SortKeys | P6/CMLParser.java:491-493 | lists the element symbols of the map in strictly ascending order |
| CmlHandler.GetRelativePath | P6/CMLParser.java:180-188 | returns the path from the innermost `molecule` to the top of the stack, or the whole path when none is open |
| CmlHandler.Edited | P6/CMLParser.java:262-270 | a rename or an added atom never changes the sub-molecules |
| CmlHandler.EditEffect | P6/CMLParser.java:262-270 | a rename sets the name and keeps the atoms; an added atom raises its element's count by one and keeps the name and every other count |
| CmlHandler.StartFails | P6/CMLParser.java:256-272 | `startElement` throws `EmptyStackException` exactly for an atom, or a formula with a non-empty title, outside every molecule; it throws `NullPointerException` exactly for a formula without a title; a failure leaves the open molecules unchanged |
| CmlHandler.StartRecords | P6/CMLParser.java:258-271 | only a `molecule` start adds a record; every other start keeps the open molecules, except the innermost, and keeps the innermost's sub-molecules |
| CmlHandler.EndKeepsRecords | P6/CMLParser.java:287-297 | closing an element loses and duplicates no molecule: the open and finished trees hold as many records before as after |
| CmlHandler.Apply | P6/CMLParser.java:265-269 | editing the innermost molecule changes only its value and leaves every other open or finished molecule unchanged |
| CmlHandler.Attach | P6/CMLParser.java:293 | the child hangs below its parent and every other record stays as it was |
| CmlHandler.MarkerPathOpensRecord | P6/CMLParser.java:262-269 | over dot-free names, a formula or atom path means a molecule is open, so `peek` cannot throw |
| CmlHandler.SizeOf | P6/CMLParser.java:203-215 | computes each ranking's size: the atom count, the sub-molecule count or the distinct-element count |
| CmlHandler.WinnerIsFirstGreatest | P6/CMLParser.java:202-217 | the reported name belongs to a molecule whose size is at least every other size and strictly greater than every earlier size |
| CmlHandler.MostBy | P6/CMLParser.java:203-206 | the loop returns the first greatest finished molecule's name, or "" when there is none |
| CmlHandler.Handler.constructor | P6/CMLParser.java:159-171 | a new handler has an empty element stack, no open and no finished molecules |
| CmlHandler.Handler.StartElement | P6/CMLParser.java:256-272 | pushes the name, then acts on the relative path as `OnStart` says; the records stay consistent, a `molecule` start opens exactly one fresh molecule, and a stack of dot-free names never gives `EmptyStackException` |
| CmlHandler.Handler.Enter | P6/CMLParser.java:257-258 | pushes the name and computes the relative path; a `molecule` element is one ahead of the open molecules |
| CmlHandler.Handler.Descend | P6/CMLParser.java:257-258 | the push leaves the records alone |
| CmlHandler.Handler.Act | P6/CMLParser.java:258-271 | the `switch` of `startElement` has the effect on the open values that `OnStart` states |
| CmlHandler.Handler.OpenNew | P6/CMLParser.java:259-261 | pushes one fresh empty molecule and counts one record more |
| CmlHandler.Handler.OpenRecord | P6/CMLParser.java:260 | a new separate molecule on top of the record stack keeps the records consistent |
| CmlHandler.Handler.EditInnermost | P6/CMLParser.java:264-270 | `peek` plus an edit changes only the innermost open value; with no molecule open it throws `EmptyStackException` and nothing changes |
| CmlHandler.Handler.EndElement | P6/CMLParser.java:287-297 | closing a `molecule` moves the innermost molecule below its parent, or to the finished list, as `Settle` and `OnEnd` state; the element stack pops or throws on an empty stack; the invariant holds |
| CmlHandler.Handler.Close | P6/CMLParser.java:288-295 | closes exactly when the top element is a `molecule`, and a molecule is then open |
| CmlHandler.Handler.Ascend | P6/CMLParser.java:296 | popping the element stack leaves the records alone |
| CmlHandler.Handler.CloseRecord | P6/CMLParser.java:289-294 | the innermost molecule leaves the stack; it is added to the finished list when the stack becomes empty, otherwise to the new innermost |
| CmlHandler.Handler.Finish | P6/CMLParser.java:290-291 | the only open molecule joins the finished list |
| CmlHandler.Handler.Nest | P6/CMLParser.java:292-293 | the innermost open molecule becomes the last sub-molecule of the one below it |
| CmlHandler.Handler.EndDocument | P6/CMLParser.java:202-217 | the three names are the first molecules with the most atoms, the most sub-molecules and the most distinct elements |
| CmlHandler.BalancedEnd | P6/CMLParser.java:287-297 | once every element has been left, no molecule is open and every molecule created is among the finished trees |
| CmlHandler.NestedDocument | P6/CMLParser.java:256-297 | two top-level molecules, the second holding one nested molecule, give two finished molecules with no and one sub-molecule |
| CmlHandler.OpenMolecule | P6/CMLParser.java:257-261 | a `molecule` start opens one fresh empty molecule on top of the record stack |
| CmlHandler.CloseMolecule | P6/CMLParser.java:287-297 | a `molecule` end closes the innermost molecule as `Settle` and `OnEnd` state |
| CmlHandler.InnerMolecule | P6/CMLParser.java:256-297 | an empty molecule inside an open one becomes that one's last sub-molecule |
| CmlHandler.LoneMolecule | P6/CMLParser.java:256-297 | an empty top-level molecule joins the finished list |
| CmlHandler.NestedMolecule | P6/CMLParser.java:256-297 | a top-level molecule holding one empty molecule joins the finished list with that sub-molecule |
| Articles.Appended | P5/XMLParser.java:223-229 | the first fragment replaces an empty abstract; later text never removes what is there; an empty fragment changes nothing |
| Articles.AbstractIsLines | P5/XMLParser.java:223-229 | the abstract is the non-empty fragments joined by newlines: none lost, no empty line |
| Articles.KeptYearIsEarliest | P5/XMLParser.java:243-248 | the kept year is one of the years read and is not later than any of them |
| Articles.NoYearIsForgotten | P5/XMLParser.java:243-248 | a year of -1 is overwritten by the next year read, even a later one |
| Articles.FullTitle | P5/XMLParser.java:262-264 | the title, followed by `": "` and the subtitle exactly when there is a subtitle |
| Articles.Article.constructor | P5/XMLParser.java:199-205 | a new article has empty texts, no authors, no year and no sections |
| Articles.Article.SetTitle | P5/XMLParser.java:207-209 | overwrites the title only |
| Articles.Article.SetSubtitle | P5/XMLParser.java:215-217 | overwrites the subtitle only |
| Articles.Article.AppendAbstract | P5/XMLParser.java:223-229 | the abstract becomes `Appended(abstract, fragment)`; nothing else changes |
| Articles.Article.AddAuthor | P5/XMLParser.java:235-237 | adds the author at the end; nothing else changes |
| Articles.Article.SetPublicationYear | P5/XMLParser.java:243-248 | text that is not an int throws `NumberFormatException` and changes nothing; otherwise the year becomes the earlier of the two, the first year replacing -1 |
| Articles.Article.AddSection | P5/XMLParser.java:254-256 | one more section; nothing else changes |
| Articles.Article.Fill | P5/XMLParser.java:132-150 | calling the setter chosen for the text's path has the effect `Filled` states |
| XmlHandler.Relative | P5/XMLParser.java:69-77 | the root alone gives `..`; any other path is kept whole or loses its leading `articles.` |
| XmlHandler.RelativeOutsideRoot | P5/XMLParser.java:69-77 | in a document not rooted at `articles`, the relative path is the whole path |
| XmlHandler.RootOfArticlesPath | P5/XMLParser.java:71-72 | a path of dot-free names starts with `articles.` only when its first name is `articles` |
| XmlHandler.RelativeUnderRoot | P5/XMLParser.java:69-77 | below the `articles` root, the relative path is the path of the elements under the root, or `..` for the root itself |
| XmlHandler.ArticlePaths | P5/XMLParser.java:69-77 | only the paths `article` and `articles.article` are relative path `article` |
| XmlHandler.NoArticleBelow | P5/XMLParser.java:103-110 | no element enclosing an article is itself an article |
| XmlHandler.AtMostOneArticle | P5/XMLParser.java:103-110 | at most one open element is an article, so a new `Article` never replaces one being read |
| XmlHandler.EnterArticle | P5/XMLParser.java:104-107 | entering an element opens an article exactly when the new relative path is `article` |
| XmlHandler.LeaveArticle | P5/XMLParser.java:123-129 | leaving the top element closes an article exactly when the top was one |
| XmlHandler.LongestIsFirstLongest | P5/XMLParser.java:97-101 | the longest namespace is the first of the longest URIs seen, by UTF-16 length |
| XmlHandler.WideNamespaceTies | P5/XMLParser.java:97-101 | a URI of one supplementary character ties with a two-letter URI, and the first is kept |
| XmlHandler.FieldOf | P5/XMLParser.java:131-150 | the text goes to the title, subtitle, author or year exactly at their paths, and to the abstract exactly under the abstract path, since no switch path lies under it |
| XmlHandler.FixedPathsOutsideAbstract | P5/XMLParser.java:133-148 | none of the paths the switch matches lies under the abstract path |
| Articles.FilledChangesOnlyItsField | P5/XMLParser.java:131-151 | text for a field changes only that field; a title or subtitle is overwritten, an author appended, the year only lowered once set, the abstract only extended; only a year that fails to parse throws |
| XmlHandler.LongestAbstractIsFirstLongest | P5/XMLParser.java:84-88 | the reported title is that of an article whose abstract is at least as long as every other and strictly longer than every earlier one, counting UTF-16 units |
| XmlHandler.WideCharacterTies | P5/XMLParser.java:84-88 | an abstract of one supplementary character ties with a two-letter abstract, and the earlier article is reported |
| XmlHandler.LongestAbstract | P5/XMLParser.java:84-88 | returns the full title of the first article with the longest abstract, or "" when there is none |
| XmlHandler.FirstLongest | P5/XMLParser.java:85-86 | the loop returns the index `Stream.max` keeps for the abstract lengths |
| XmlHandler.Handler.constructor | P5/XMLParser.java:61-67 | a new handler has no open element, no namespace, no articles, no comments and no current article |
| XmlHandler.Handler.StartElement | P5/XMLParser.java:103-121 | pushes the name; `article` starts a fresh empty article, and none is being read then; a body section is counted, or throws `NullPointerException` outside an article, in which case the namespace is not updated; a non-empty namespace URI longer in UTF-16 units replaces the longest |
| XmlHandler.Handler.EndElement | P5/XMLParser.java:123-129 | closing an `article` adds the non-null current article to the list and clears it; the stack pops or throws on an empty stack; the invariant holds |
| XmlHandler.Handler.Characters | P5/XMLParser.java:131-151 | the trimmed text updates the current article's field for the path, as `Filled` states; at a field path outside an article it throws `NullPointerException`; other paths change nothing |
| XmlHandler.Handler.Comment | P5/XMLParser.java:153-155 | one comment more, nothing else changes |
| XmlHandler.Handler.StartPrefixMapping | P5/XMLParser.java:97-101 | a URI strictly longer in UTF-16 units replaces the longest namespace |
| XmlHandler.Handler.EndDocument | P5/XMLParser.java:82-95 | reports the longest namespace, the full title of the first article with the longest abstract, the number of comments and the number of articles |

## Left out

* The command-line entry points, the creation of the parser, validation and
  the error handler (`CMLParser.parse` and `main`, `CMLErrorHandler`,
  `XMLParser.parse` and `main`) are not modelled. Neither is the reading of the
  document: the handlers receive their events as method calls.
* Printing is not modelled. This covers `System.out` in both `endDocument`
  methods, `printSubMolecules`, the namespace echo in `startElement` and both
  `toString` methods. `EndDocument` returns the reported values instead.
* `setDocumentLocator`, the empty callbacks, and the getters that only return
  a field are not modelled as separate members. These getters are
  `getSubMolecules`, `getTitle`, `getAbstract`, `getAuthors`,
  `getPublicationYear`, `getSections` and `getRoute`; the class state is read
  directly.
* Unused parameters (`qName`, `namespaceURI` of `endElement`, `prefix`) are
  left out. The text of `characters` arrives as a string: the slicing of the
  character array is not modelled.
* CmlHandler.GetRelativePath: compares names with `equals`. The source compares
  with `==`, which relies on the parser interning element names.
* CmlHandler.Attribute: a missing `elementType` is read as the empty element
  name. Java stores a `null` key, so its `getFormula` then throws
  `NullPointerException` when sorting two or more symbols, or renders `null`
  for that symbol; the model renders an empty symbol instead.
* Molecules.Molecule.GetAllElements: states the atoms as a multiset.
  `HashMap` iteration order is unspecified, so the order of the list is not
  modelled.
* Molecules.Molecule.AddElementCount: takes a count of at least one. The source
  accepts any int, but passes only 1 or counts taken from a map.
* Molecules.Molecule.AddMolecule: requires the child's tree to be separate from
  the parent's. The handler always passes a molecule it has just taken off the
  stack.
* Strings.LexLess: compares characters by code point. `compareTo` compares
  UTF-16 units; the two orders differ only outside the Basic Multilingual
  Plane.
* Strings.ParseInt: accepts ASCII digits only. `Integer.parseInt` also accepts
  other Unicode decimal digits.
* Articles.KeptYearIsEarliest: requires that no year read equals -1. The
  source uses -1 for "no year", so a year of -1 is forgotten; see
  `NoYearIsForgotten`.
* Counters and sizes are unbounded integers. The 32-bit `int` wrap-around of
  the atom counts, `sections`, `comments` and the comparator's subtraction is
  not modelled.
