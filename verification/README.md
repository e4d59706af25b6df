# Verified model of Mugshot and muggin

Mugshot serves HTTP requests by calling PostgreSQL functions; muggin is its template language, compiled
and rendered inside PostgreSQL. This project models the parts of the two where data changes shape or
place, and proves what they promise.

* **Templates** (`Template`, `TemplatePrinter`, `TemplateLines`, `Muggin`, `MugginRoundTrip`). The
  indentation-sensitive parser, as functions on text and as the compiler's methods, which advance the input,
  keep the indentation and intern every string. Parsing undoes printing, for every well-formed template and
  through every rehash of the pools. What an input does is one of four outcomes: a result, a refusal, an error
  report that ends the call, or a scan that never ends. The recursive parser ends exactly as a walk over the
  lines does, and its tree has the nodes of the lines that are read, in their order and as deep as they are
  indented; so the text alone tells how much is read and what is lost.
* **String pools** (`StringPools`). Two open-addressed tables with ids that outlive rehashing.
* **Rendering** (`RenderSpec`, `Renderer`, `Scoping`, `ScopeLeaks`, `SqlText`, `QueryParams`, `Templates`,
  `Pages`). The renderer has one scope, which query rows overwrite and nothing restores. It renders what lexical
  scoping means for every template that reads no name which some other query or an earlier row may have
  overwritten; for templates that read one, a database with the same columns shows the difference. Query
  contents become SQL with numbered placeholders. PostgreSQL reads them as meant exactly when no constant text
  runs into them and none leaves an identifier, a string, a comment or a dollar quote open before them. The page
  of a template without queries is its HTML, which is defined on what the author wrote.
* **String buffer** (`StrBufs`, `Strs`). Growth, HTML escaping, slices.
* **Hash map** (`Probing`, `HashIndexes`, `StbHashMap`). The bucketed hash map of stb_ds with quadratic
  probing, tombstones, swap-delete, growth, shrinking and rebuilding: it answers every run of operations as
  a finite map does. Its probe loops end because triangular numbers reach every residue modulo a power of two.
* **SHA-1** (`Sha1`, `Sha1Answer`). The streaming implementation against FIPS 180-4, with the hash of "abc".
* **Base64** (`Base64`). The bounded encoder and the in-place decoder against section 4 of RFC 4648.
* **PostgreSQL wire client** (`Wire`, `PgConns`, `PgSession`, `PgRows`, `PgServe`). Requests with
  back-patched lengths in a growable buffer; replies read into the same buffer; the session of one request.
* **HTTP parameters** (`UrlDecode`, `FormParameters`, `Routes`, `Endpoint`). Route matching, form lookup and
  percent-decoding in place, from the request buffer to the arguments of the call.

Code that changes state is modelled by classes and methods over arrays and fields, each proved against a
function of its input or old state; the properties are then lemmas about those functions.

## Findings

Some promises hold only under a condition. The condition is named, and proved exact where that is said.

* Serving leaves the connection out of step after several conformant replies: a call without a row or with
  two, a Describe error, an error while rows are read, a notice directly before a row description. It is then
  not marked for closing. `PgSession.ServedExactly` says for which replies the stream is read to its end,
  exactly, and `PgSession.MissingRow` gives one for which it is not.
* Text around a name in a query can keep its placeholder from being one: `{{x}}0` becomes `$10`,
  `where a{{x}} = 1` becomes `where a$1 = 1` with the identifier `a$1`, `select '{{x}}'` the string `'$1'`, and
  in `${{x}}` the text `$$1` opens a dollar quote. `QueryParams.PlaceholdersAreExact` has the exact condition,
  for the tokens of `SqlText`: no constant has a placeholder of its own, none after a name goes on with a digit
  or a letter, and none before a name leaves an identifier, quotes, a comment or a `$` open. The instances are
  `QueryParams.DigitAfterName`, `QueryParams.NameAfterIdent`, `QueryParams.NameInQuotes` and
  `QueryParams.NameAfterDollar`.
* A row's binding outlives its element, as in `Scoping.BindingsLeak`. Going through a template in order one
  can tell which names some other query or an earlier row may have overwritten. A template that reads none of
  them renders lexically with every database (`Scoping.RenderIsLexical`). The condition is exact for templates
  whose queries ask for names that are bound by then and, where they ask for one that may have been overwritten,
  have something visible in their element (`ScopeLeaks.LexicalExactly`). A template that shows such a name is
  rendered otherwise with some database whatever its elements hold (`ScopeLeaks.StaleIsShown`).
* A path value that begins with a colon is taken as text of the route. `Routes.MatchInvertsFill` has the exact
  condition, `Routes.ColonPath` an instance.
* An unquoted attribute value that nothing ends is scanned for ever. `TemplateLines.UnquotedHangs` has the
  exact condition for the attribute and `TemplateLines.ParseIsWalk` for the template: the walk over its lines
  comes to such a line. A template whose last visible character is a closing parenthesis is always parsed
  (`TemplateLines.ClosedEnds`).
* A child that does not parse is dropped in silence, with what follows it. `TemplateLines.ReadToEndExactly`
  says exactly when a text is read to its end. That can be so although a line is lost: one that is refused at
  its own end loses that line only, and after a refusal the parser goes on in the middle of the line.
  `TemplateLines.ErrorsBelowAreSilent` has instances of both.
* An attribute without a value vanishes: `input(disabled)` is read as `input`. A list in parentheses keeps every
  attribute written in it exactly when each has a value (`TemplateLines.AttributesKeptExactly`), and a lone name
  is lost whatever it is (`TemplateLines.BareNameVanishes`, `TemplateLines.DisabledIsLost`).
* A template with three dashes in its own text loses what is before them, as metadata: of `p a---b` only `b` is
  left (`TemplateLines.LinesBeforeDashes`). `TemplateLines.MetadataExactly` has the exact condition.
* After the metadata no line and no attribute is lost exactly when every line is below an open element, parses,
  and has no attribute without a value: `TemplateLines.KeptExactly`, which compares the parser with one that
  refuses every other template.
* The server does not look at the outcome of percent-decoding. An argument that is no percent-encoding arrives
  with its start overwritten: `%41%zz` as `A41%zz` (`Endpoint.HalfDecoded`). `Endpoint.ArrivesDecoded` has the
  exact condition.
* README.md of the repository writes `input(type=checkbox, checked={{complete}})`. The code ends an unquoted
  value at a space, tab, newline or closing parenthesis only, so the comma belongs to the value:
  `TemplateLines.CommaInValue`. The model follows the code.

## Model

| member | source | states |
|---|---|---|
| Probing.TriReaches | mugshot/stb_ds.h:903-935 | for every slot count that is a power of two, the triangular numbers reach every residue below it within as many steps |
| Probing.ProbeVisitsAll | mugshot/stb_ds.h:1246-1277 | the steps of 8, 16, 24, ... with eight lanes a bucket visit every slot, from any start |
| HashIndexes.ThresholdsLeaveRoom | mugshot/stb_ds.h:892-894 | used slots up to the growth threshold and tombstones up to theirs never fill the table |
| HashIndexes.HashIndex.ProbeStops | mugshot/stb_ds.h:1246-1277 | in every valid index a probe for any hash meets an empty slot, so the endless loops end |
| HashIndexes.MissedForGood | mugshot/stb_ds.h:1250-1252 | a key not met before the first empty slot of its probe is not in the index |
| HashIndexes.ChainedInsert | mugshot/stb_ds.h:1439-1450 | filling a free slot on the probe keeps every probe chain unbroken and adds exactly that entry |
| HashIndexes.ChainedDelete | mugshot/stb_ds.h:1499-1506 | leaving a tombstone keeps every probe chain unbroken and removes exactly that entry |
| HashIndexes.ChainedMove | mugshot/stb_ds.h:1512-1523 | redirecting the back-pointer of the moved last entry keeps every chain, under the entry's new position |
| HashIndexes.HashIndex.From | mugshot/stb_ds.h:884-1011 | growing, shrinking or rebuilding gives a valid index of the same entries, as many used slots and no tombstone |
| HashIndexes.HashIndex.CopyIn | mugshot/stb_ds.h:966-1002 | one copied hash lands in an empty slot on its own probe and disturbs no chain |
| HashIndexes.HashIndex.FindSlot | mugshot/stb_ds.h:1232-1279 | the slot found holds the key's entry, and -1 means that no indexed entry has the key |
| HashIndexes.HashIndex.ProbeForPut | mugshot/stb_ds.h:1363-1433 | either the entry of the key, or the first reusable place on its probe when no entry has it |
| HashIndexes.HashIndex.Insert | mugshot/stb_ds.h:1439-1452 | the index covers the appended key, and both counts move as the reuse of a tombstone says |
| HashIndexes.HashIndex.Remove | mugshot/stb_ds.h:1499-1506 | one entry leaves the index, and used and tombstone counts move by one |
| HashIndexes.HashIndex.MoveLast | mugshot/stb_ds.h:1508-1523 | after swap-delete the index covers exactly the shortened entry array again |
| StbHashMap.AsMapSwapDelete | mugshot/stb_ds.h:1508-1525 | swap-delete of an entry removes exactly its key from the map that the array stands for |
| StbHashMap.AsMapSize | mugshot/stb_ds.h:1449-1457 | with distinct keys the array has one entry for each key of the map |
| StbHashMap.HashMap.GetIndex | mugshot/stb_ds.h:1281-1310 | the position of the key's entry, or -1 exactly when the map lacks the key |
| StbHashMap.HashMap.Get | mugshot/stb_ds.h:1312-1318 | the value of the key, or the default entry's value |
| StbHashMap.HashMap.EnsureRoom | mugshot/stb_ds.h:1357-1373 | before a put the index has room: eight slots at first, twice as many when the used slots reach the threshold |
| StbHashMap.HashMap.TrimIndex | mugshot/stb_ds.h:1525-1533 | after a deletion a sparse index is halved, else one with too many tombstones is rebuilt, else it stays |
| StbHashMap.HashMap.PutKey | mugshot/stb_ds.h:1337-1459 | the entries stay, but for one new entry at the end when the key is new |
| StbHashMap.HashMap.Put | mugshot/stb_ds.h:1337-1459 | the map is updated at the key and nowhere else |
| StbHashMap.HashMap.Delete | mugshot/stb_ds.h:1472-1538 | the map loses the key and nothing else, and the result says whether it had it |
| StbHashMap.Perform | mugshot/stb_ds.h:1281-1538 | one operation answers as the finite map does and leaves the map it leaves |
| StbHashMap.Run | mugshot/stb_ds.h:1232-1538 | over every run of puts, gets and deletes every answer, and the length at the end, are those of a finite map |
| StringPools.StrEqIsEquality | str.h:243-246 | comparing with strncmp is equality when the first string has no NUL |
| StringPools.FreeSlot | muggin.c:99-120 | with fewer strings than slots there is a free slot, so the search for one ends |
| StringPools.PoolIndex | muggin.c:99-120 | a new string gets the next id, and every earlier id keeps its string |
| StringPools.StringPool.Lookup | muggin.c:122-143 | a string is found exactly when it was interned, under its own id |
| StringPools.StringPool.Grow | muggin.c:152-171 | a rehash into the larger table keeps the meaning of every id |
| StringPools.StringPool.Use | muggin.c:145-179 | the old id if the string was seen, else the next one; the list of strings only grows at its end |
| StringPools.InternAll | muggin.c:99-179 | over every run the strings are the first uses in order, and two ids agree exactly when the strings do |
| Strs.LTrim | str.h:159-165 | the longest suffix that does not start with white space |
| Strs.RTrim | str.h:167-170 | the longest prefix that does not end in white space |
| Strs.SpaceExactly | str.h:155-170 | white space is the space, the tab and the line break |
| Strs.StrIndexOf | str.h:134-140 | the first position of the character, or -1 exactly when there is none |
| Strs.StrSplitAt | str.h:108-131 | splits at the first of the separators; everything is split off without one; false on empty text |
| TemplateLines.QuotedEnds | muggin.c:335-347 | a quoted value is the text up to the next quote, and the rest is what follows that quote; without one it is all that is left, and nothing at all is a refusal |
| TemplateLines.UnquotedEnds | muggin.c:349-362 | an unquoted value is the text up to the next space, tab, newline or closing parenthesis; the rest is what follows, the parenthesis included |
| TemplateLines.Terminators | muggin.c:349-362 | the four characters that end an unquoted value |
| TemplateLines.CommaInValue | muggin.c:349-362 | a comma after an unquoted value belongs to it |
| Template.ParseNode | muggin.c:437-582 | a node that parses consumes input, and a refusal never adds any, so the child loops end |
| TemplatePrinter.ContentsRoundTrip | muggin.c:399-435 | printed contents are read back as the same items |
| TemplatePrinter.ItemsExactlyReadable | muggin.c:399-435 | the item lists that some text is read as are exactly the well-formed ones |
| TemplatePrinter.ParsedItemsOk | muggin.c:399-435 | whatever text is read as contents, the items are well-formed |
| TemplatePrinter.FieldRoundTrip | muggin.c:321-369 | a printed attribute is read back |
| TemplatePrinter.TokenCharacters | muggin.c:229-247 | which characters tags, ids, classes and attribute names may have, at the start and after it |
| TemplatePrinter.MarksRoundTrip | muggin.c:473-528 | a printed id and up to 64 classes are read back |
| TemplatePrinter.SixtyFourClasses | muggin.c:494-508 | 64 classes are read, and with a 65th the element is refused |
| TemplatePrinter.MarksMean | muggin.c:249-264 | the void elements are the fourteen of the table, and the attributes of marks are those of the printer's tree |
| TemplatePrinter.MarksInFull | muggin.c:509-531 | for every printed element: the id comes first as the attribute "id", one class as a constant "class", more than one as a "class" of the classes in order, separated by spaces |
| TemplatePrinter.HeadRoundTrip | muggin.c:473-562 | a printed element line gives its tag, attributes and inline text |
| TemplatePrinter.TextLineRoundTrip | muggin.c:455-470 | a printed text line gives its text |
| TemplatePrinter.NodeRoundTrip | muggin.c:437-582 | a printed node at any indentation is read back, and the text after it is left, but for the newline |
| TemplatePrinter.TabIsEight | muggin.c:199-227 | a tab of the indentation counts as eight spaces |
| TemplatePrinter.ChildrenRoundTrip | muggin.c:565-573 | printed children are read back to the last, and no further |
| TemplatePrinter.TemplateRoundTrip | muggin.c:587-632 | for every well-formed template, its printed text after a metadata section and dashes parses to its tree |
| TemplatePrinter.PlainRoundTrip | muggin.c:587-632 | and without a metadata section, when the text has no three dashes |
| TemplateLines.ParseIsWalk | muggin.c:437-582 | for every text the recursive parser ends as a loop over the lines does: with the same text left over, or a refusal, or an error report, or never |
| TemplateLines.ReadToEndExactly | muggin.c:565-573 | a text is read to its end if and only if line after line is below an open element when the walk comes to it, up to white space |
| TemplateLines.TreeIsItsLines | muggin.c:437-582 | for every text that parses, the nodes of the tree are those of the lines that are read, in their order and as deep as they are indented |
| TemplateLines.KeptExactly | muggin.c:437-582 | a parser that refuses a template with a bad line or an attribute without a value succeeds if and only if, after the metadata, every line is indented by two more than an open element, parses itself and has a value for each attribute; then the parser gives the same tree |
| TemplateLines.AttributesKeptExactly | muggin.c:533-544 | a list in parentheses gives exactly the names before the first one without a value, so it keeps all that are written if and only if each has a value |
| TemplateLines.BareNameVanishes | muggin.c:321-334 | a list of one name without a value gives no attribute, for every name |
| TemplateLines.DisabledIsLost | muggin.c:533-544 | `input(disabled)` is read as an input without attributes |
| TemplateLines.MetadataExactly | muggin.c:587-603 | parsing starts at the beginning of a text if and only if the text has no three dashes |
| TemplateLines.LinesBeforeDashes | muggin.c:587-603 | a template's own lines before three dashes are lost |
| TemplateLines.ErrorsBelowAreSilent | muggin.c:568-570 | a child line that does not parse ends the element without a report; what follows is left unread, and with nothing after it the text counts as read |
| TemplateLines.UnquotedHangs | muggin.c:349-357 | an unquoted value at the end of the text is scanned for ever exactly when it holds no terminator |
| TemplateLines.ClosedEnds | muggin.c:606-632 | parsing a template whose last visible character is a closing parenthesis ends |
| Muggin.NodeDenotesLater | muggin.c:182-192 | a tree of ids keeps its meaning in every later state of the pools |
| Muggin.Compiler.UseConstant | muggin.c:182-186 | the id denotes the string, and earlier ids of both pools keep theirs |
| Muggin.Compiler.CheckIndent | muggin.c:199-227 | consumes exactly the indentation when it is the expected one, and nothing otherwise |
| Muggin.Compiler.ContentsFromStr | muggin.c:399-435 | the ids denote the items that the text has, or the call ends in the report that the text calls for |
| Muggin.Compiler.ReadAttribute | muggin.c:321-369 | reads what the attribute syntax says, from and to the same place of the input |
| Muggin.Compiler.ReadMarks | muggin.c:480-508 | reads the id and classes into places of a table of 64 without leaving it |
| Muggin.Compiler.ReadNode | muggin.c:437-582 | the node denotes what the text parses to, with the input left where the grammar leaves it |
| Muggin.Compiler.ReadChildren | muggin.c:565-573 | children until one does not parse; the indentation is restored |
| Muggin.SkipMetadataOf | muggin.c:587-603 | the text after the first three dashes and white space, or all of it |
| Muggin.MugginParse | muggin.c:606-632 | the compiled tree denotes what the text parses to, or the call fails as the text says |
| MugginRoundTrip.CompilePrinted | muggin.c:606-632 | compiling a printed template gives a tree that denotes the template, for every hash function and any number of rehashes |
| StrBufs.EscapeInvertible | str.h:395-415 | decoding the five entities gives the escaped text back |
| StrBufs.EscapedIsInert | str.h:395-415 | escaped text has no angle bracket and no quote |
| StrBufs.Entities | str.h:395-415 | the five characters, each with its entity; every other character is written as it is |
| StrBufs.DecimalRoundTrip | str.h:417-423 | the digits written for a number have its value |
| StrBufs.DecimalDigits | str.h:417-423 | the ten digits, appended from the most significant on, with a minus sign before a negative number |
| StrBufs.StrBuf.Ensure | str.h:362-384 | there is room for what was asked, and the text is unchanged |
| StrBufs.StrBuf.AppendStr | str.h:386-392 | the text is appended to what was there, within the capacity |
| StrBufs.StrBuf.AppendInt | str.h:417-423 | the decimal form of any 32-bit int is appended, and with its NUL it fits the twelve bytes made ready |
| StrBufs.StrBuf.AppendStrEscaped | str.h:395-415 | the escaped text is appended, within the capacity, whatever room there was at first |
| RenderSpec.BindRow | muggin.c:801-812 | binds the columns that the template names, each to the value of the last column of its name, and leaves every other binding alone |
| RenderSpec.QueryIndex | muggin.c:734-742 | the last query attribute of an element, or -1 when it has none |
| RenderSpec.NameShows | muggin.c:634-669 | a name shows nothing when unbound, and the text of its value, escaped if it is bound so |
| RenderSpec.QueryFails | muggin.c:676-724 | a query that the database refuses, and one that asks for a name without a value, end in an error report |
| Pages.ClassesWritten | muggin.c:634-638 | a class list of any length is written as its classes joined by single spaces |
| Pages.TreeWritten | muggin.c:726-842 | for every template without queries what is rendered is its HTML, which is defined on what the author wrote, without the renderer's functions |
| Scoping.RenderIsLexical | muggin.c:726-842 | if no name is read that some other query or an earlier row may have overwritten, the one mutable scope renders what lexical scoping does, or reports an error exactly when it does |
| Scoping.RowsAreLexical | muggin.c:798-817 | row by row, the children are rendered under the outer bindings extended with that row |
| Scoping.AllIsLexical | muggin.c:815-817 | siblings are rendered as lexical scoping does, whatever queries ran before them |
| Scoping.WellScopedReadsKnown | muggin.c:726-842 | templates that use names only where bound and rebind no live name keep to that condition |
| Scoping.BindingsLeak | muggin.c:871-873 | an instance that does not: a sibling after a query element shows the last row's value |
| ScopeLeaks.StaleIsShown | muggin.c:783-819 | a template that shows a name which may have been overwritten, and whose queries ask for bound names, is rendered otherwise than lexically with some database of the same columns |
| ScopeLeaks.UnboundTells | muggin.c:676-724 | a template with a query that asks for a name not bound around it, but by then, is rendered with some database for which lexical scoping reports an error |
| ScopeLeaks.LexicalExactly | muggin.c:783-819 | when queries ask only for what is bound by then, and have something visible in their element where they ask for a name that may have been overwritten, a template renders lexically with every database of its columns if and only if it reads no such name |
| ScopeLeaks.ShownExactly | muggin.c:783-819 | when queries ask for no such name, the same holds for what is shown, whatever the elements hold |
| QueryParams.PlaceholdersAreExact | muggin.c:676-724 | in terms of the tokens of SQL, strings, comments, quoted identifiers and dollar quotes included: the SQL text reads back as the tokens of the constants and placeholders 1 to n in order if and only if no constant has a placeholder, none after a name goes on with a digit or letter, and none before a name leaves a token open |
| QueryParams.DigitAfterName | muggin.c:699-706 | a name followed by a digit is a case where it does not |
| QueryParams.NameAfterIdent | muggin.c:699-706 | a name after an identifier is another |
| QueryParams.NameInQuotes | muggin.c:699-706 | a name in a string is another |
| QueryParams.NameAfterDollar | muggin.c:699-706 | and so is a name after a dollar sign |
| QueryParams.ParametersKeepMeaning | muggin.c:676-724 | replacing each placeholder by its argument gives the contents with the names replaced, and there are as many arguments as names, never more than items |
| QueryParams.ArgumentsInOrder | muggin.c:676-724 | the k-th argument is the value of the k-th name |
| QueryParams.QueryKeepsMeaning | muggin.c:676-724 | putting the arguments that are sent in the place of the placeholders that are sent gives the query as its author meant it |
| SqlText.StringInFull | muggin.c:699-706 | an SQL text token by token: what looks like a placeholder in a string is none, one after the string is |
| Renderer.Renderer.constructor | muggin.c:844-850 | a new scope binds nothing |
| Renderer.Renderer.BindIdx | muggin.c:863-869 | one name is bound, and the others keep their bindings |
| Renderer.Renderer.Bind | muggin.c:852-861 | a name of the template is bound; any other name is passed over |
| Renderer.Renderer.RenderContents | muggin.c:634-669 | appends the texts of the items with separators, escaped where the binding says so |
| Renderer.Renderer.Query | muggin.c:676-724 | runs the SQL text with the values of its names, and reports an error exactly when a value is missing or the query fails |
| Renderer.Renderer.RenderAttribute | muggin.c:734-771 | appends the attribute, unless it is the query |
| Renderer.Renderer.BindColumns | muggin.c:801-812 | the scope is extended with one row |
| Renderer.Renderer.RenderForRows | muggin.c:783-819 | the children once for each row, up to 65536, each row bound over what the scope holds by then |
| Renderer.Renderer.RenderNode | muggin.c:726-842 | appends the node's text and leaves the scope that the specification of the renderer gives |
| Renderer.Renderer.MugginRender | muggin.c:876-890 | the document type, the root and a NUL are appended |
| Templates.ParsedQueries | muggin.c:606-632 | every template that parses has its queries in contents, as the renderer needs |
| Templates.ParsedContentsAlternate | muggin.c:399-435 | contents that parse have no empty and no adjacent constants, as placeholders need |
| Templates.UsesInPool | muggin.c:188-197 | every name a template uses is in the name pool of its compiled tree |
| Templates.FunctionIsLexical | plmuggin.c:149-185 | with the function's arguments bound, rendering is lexical whatever other names the pool holds, if no name is read that may have been overwritten |
| Templates.ParamsBind | plmuggin.c:149-159 | the last argument of a name that the template uses is bound to it, to be escaped |
| Templates.ParamsBound | plmuggin.c:149-159 | and no other name is bound |
| Templates.RenderFunction | plmuggin.c:137-185 | from source text to output: the document that lexical scoping gives for the template the text means |
| Pages.RenderPrinted | plmuggin.c:137-185 | from what an author writes to the page: the document type, the template's HTML with each name replaced by the escaped text of its argument, and a NUL |
| Pages.SampleSource | muggin.c:437-582 | a template with a tag, an id, two classes, an attribute, a name and a text line, character by character |
| Pages.SamplePage | muggin.c:726-842 | its page, character by character |
| Pages.ListSource | muggin.c:533-573 | a template whose element has a query, character by character |
| Pages.ListPage | muggin.c:783-819 | its page: one escaped item for each row, in order, for the first 65536 rows |
| Sha1.PaddingIsMinimal | mugshot/mugshot.c:1393-1401 | the zero bits are the fewest that bring the message to 448 bits into a block |
| Sha1.OrsAreXors | mugshot/mugshot.c:1332-1337 | the OR forms of choice and majority are the standard's exclusive-OR forms |
| Sha1.BigEndianByte | mugshot/mugshot.c:1388-1391 | the shifted and masked bytes are the length in big-endian order |
| Sha1.WordOfBytes | mugshot/mugshot.c:1406-1409 | the bytes put out hold the word |
| Sha1.CountPosition | mugshot/mugshot.c:1361-1363 | the bit count modulo 2^64 still tells the position in the block |
| Sha1.Context.Schedule | mugshot/mugshot.c:1316-1323 | the eighty words are the message schedule of the standard |
| Sha1.Context.Transform | mugshot/mugshot.c:1312-1356 | the state becomes the compression of the old state with the block |
| Sha1.Context.Update | mugshot/mugshot.c:1359-1383 | the context stands for the old message with the data appended: state, count and live buffer bytes |
| Sha1.Context.Final | mugshot/mugshot.c:1386-1410 | the padding loop ends, and the digest is the hash of everything added, below 2^64 bits |
| Sha1.Digest | mugshot/mugshot.c:1413-1418 | the digest of a message is its hash by FIPS 180-4 |
| Sha1Answer.AbcHash | mugshot/mugshot.c:1302-1356 | the hash of "abc" is the one given with the standard, word by word |
| Sha1Answer.AbcDigest | mugshot/mugshot.c:1386-1418 | its digest, byte by byte |
| Sha1.AnyTwoCuts | mugshot/mugshot.c:1359-1383 | any two ways to cut a message into pieces leave the same state, count and live buffer bytes |
| Base64.EncodingTable | mugshot/mugshot.c:383-384 | the encoding table is the alphabet of the standard |
| Base64.AlphabetInFull | mugshot/mugshot.c:383-384 | the alphabet of the standard, character by character |
| Base64.DecodingTable | mugshot/mugshot.c:387-392 | the decoding table undoes the alphabet |
| Base64.EncodedForms | mugshot/mugshot.c:408-432 | the bits the code cuts out of one to three bytes are the 6-bit groups of the standard |
| Base64.RoundTrip | mugshot/mugshot.c:394-478 | decoding an encoding gives the bytes back, for every input |
| Base64.TestVectors | mugshot/mugshot.c:394-436 | the encodings of "f", "fo" and "foo" given with the standard |
| Base64.Base64Encode | mugshot/mugshot.c:394-436 | succeeds exactly when there is input and room for all groups and a NUL; what fits is written, the rest untouched |
| Base64.TakeGroup | mugshot/mugshot.c:443-472 | a good group is replaced by its bytes at the output position; a bad one changes nothing |
| Base64.Base64DecodeMut | mugshot/mugshot.c:439-478 | decodes in place: the decoded bytes, a NUL on success, and the rest of the buffer as it was |
| Base64.ThereAndBack | mugshot/mugshot.c:394-478 | encoding and decoding in one buffer gives back every non-empty input, followed by a NUL |
| Wire.RoundTrip | mugshot/pgwire.h:150-210 | a decoder that shares nothing with the encoder gives back every list of messages within the limits |
| Wire.MostSignificantFirst | mugshot/pgwire.h:150-177 | numbers are sent with the most significant byte first |
| Wire.MessageBytes | mugshot/pgwire.c:264-296 | a Parse and a Bind message, byte by byte |
| Wire.ClosingBytes | mugshot/pgwire.c:298-326 | Describe, Execute and Sync, byte by byte |
| PgConns.GrowthSuffices | mugshot/pgwire.c:241-248 | every growth branch gives at least the size wanted, which includes 8192 spare bytes |
| PgConns.PgConn.EnsureBuf | mugshot/pgwire.c:236-260 | whichever way the buffer grows, 8192 bytes are spare beyond what was asked, and its bytes are kept |
| PgConns.PgConn.Put | mugshot/pgwire.h:146-177 | appends within the buffer and leaves 8192 spare bytes |
| PgConns.PgConn.MarkLen | mugshot/pgwire.h:207 | the unchecked skip of four bytes stays within the buffer |
| PgConns.PgConn.UpdateLen | mugshot/pgwire.h:208-210 | the length is patched in and nothing else changes |
| PgConns.PgConn.PutParse | mugshot/pgwire.c:264-274 | appends exactly the Parse message |
| PgConns.PgConn.PutBind | mugshot/pgwire.c:276-296 | appends exactly the Bind message: text parameters, binary results |
| PgConns.PgConn.PutQuery | mugshot/pgwire.c:456-467 | appends exactly Parse, Bind, Describe and Execute, each with its own length |
| PgConns.QueryDecodes | mugshot/pgwire.c:456-467 | those bytes decode to exactly the four messages, for any SQL text without NUL and parameters within the limits |
| PgConns.PgConn.PgSync | mugshot/pgwire.c:316-326 | sends everything put so far, with a Sync |
| PgConns.PgConn.ExpectMsg | mugshot/pgwire.c:397-431 | the bytes are read as the session model reads messages, and nothing before the position changes |
| PgConns.PgConn.ReadError | mugshot/pgwire.c:352-394 | reads the error and follows it to ReadyForQuery, or marks the connection for closing |
| PgConns.PgConn.ReadMsg | mugshot/pgwire.c:46-56 | the payload is appended to the buffer, whose earlier bytes are kept even when it moves |
| PgConns.ReadyBytes | mugshot/pgwire.c:46-56 | a ReadyForQuery message as it arrives, byte by byte |
| PgConns.PgConn.PgReadResult | mugshot/pgwire.c:469-498 | the result the session model gives, with the description where it says |
| PgConns.PgConn.PgNextRow | mugshot/pgwire.c:540-590 | the row the session model gives, its payload exactly where it says, earlier bytes kept |
| PgConns.PgConn.PgValue | mugshot/pgwire.c:597-622 | for every well-formed row: null or exactly the bytes of the column; a failure exactly for a field there is none of |
| PgConns.HoldsLater | mugshot/pgwire.c:592-595 | a value found earlier still holds its bytes after later messages have been read |
| PgRows.CellAt | mugshot/pgwire.c:604-616 | where the k-th column of a row lies |
| PgRows.FirstTextOf | mugshot/pgwire.c:592-622 | what the first column of a row gives as text |
| PgRows.RowBytes | mugshot/pgwire.c:597-622 | a row with a value and a null, byte by byte |
| PgSession.ExpectError | mugshot/pgwire.c:352-394 | an error where a message is expected is followed through notices to the ReadyForQuery after it |
| PgSession.ReadError | mugshot/pgwire.c:469-498 | an error that answers a Parse, a Bind or the Execute of a query without rows is read to the end of the reply; one that answers a Describe is not |
| PgSession.ReadRows | mugshot/pgwire.c:469-498 | a query with rows is read up to its first row, unless a notice stands before the description |
| PgSession.ReadNoData | mugshot/pgwire.c:476-479 | a query without rows is read to its end, unless a notice stands before NoData |
| PgSession.ServedExactly | mugshot/mugshot.c:974-1050 | for every conformant reply with notices anywhere: the exact condition for the stream to be at its end, and the reply that is served |
| PgSession.MissingRow | mugshot/mugshot.c:1002-1005 | a call without a row leaves the reply half read and the connection open |
| PgSession.ReplyEndsAtReady | mugshot/mugshot.c:1034-1038 | whatever a server sends: when a reply is served, exactly the messages through a ReadyForQuery are consumed, or the connection is closing |
| PgSession.UsualReply | mugshot/mugshot.c:984-1038 | the usual reply message by message: the response is the row of the second query, the status that of the third, and nothing is left to read |
| PgSession.ErrorReply | mugshot/pgwire.c:352-394 | a notice, an error and ReadyForQuery: a failure after which nothing is left to read |
| PgSession.ErrorWithoutEnd | mugshot/pgwire.c:352-394 | an error without ReadyForQuery: the connection is marked for closing |
| PgServe.SendBatch | mugshot/mugshot.c:974-982 | the batch of a request is the three queries and a Sync, and nothing else is sent |
| PgServe.BatchInFull | mugshot/mugshot.c:974-982 | the bytes of a batch decode to thirteen messages: the two SQL texts around the call are given character by character, the call has its own text, types and values, and a Sync comes last |
| PgServe.ServeReply | mugshot/mugshot.c:984-1038 | status and response are the first columns of their rows, byte for byte, however much was read in between |
| PgServe.ServedTexts | mugshot/mugshot.c:1010-1033 | what is served of well-formed rows: the first columns of the status and of the response |
| PgServe.MugshotServePg | mugshot/mugshot.c:974-1050 | one request: what is sent, what is served, and when the connection is in step afterwards |
| UrlDecode.DecodeExactly | str.h:286-337 | the decoder accepts exactly the percent-encodings of section 2.1 of RFC 3986, with digits of either case, and gives what they encode |
| UrlDecode.PercentEncodes | str.h:286-337 | encoding every byte that is not unreserved is such an encoding, of any bytes, without a separator |
| UrlDecode.HexDigits | str.h:299-322 | the values of the digits of both cases |
| UrlDecode.EitherCaseDecoded | str.h:286-337 | encoding every byte with digits of either case, chosen digit by digit, is decoded to the text |
| UrlDecode.PlainExactly | str.h:326-332 | the characters that stand for themselves |
| UrlDecode.StrUrlDecode | str.h:286-343 | decodes in place; nothing outside the slice changes; a failure leaves the start overwritten and the length as it was |
| FormParameters.FoundApart | mugshot/mugshot.c:839-852 | in any text the values of different names do not overlap |
| FormParameters.FoundInQuery | mugshot/mugshot.c:839-852 | in a query string each key is found, with exactly the encoded text of its pair |
| FormParameters.SecondParameter | mugshot/mugshot.c:839-852 | a query string with two parameters: where each is found |
| FormParameters.NotInQuery | mugshot/mugshot.c:839-852 | a name that is no key is not found |
| FormParameters.GetFormParameter | mugshot/mugshot.c:839-852 | the first parameter of the name, as a slice of the text |
| FormParameters.RequestParameter | mugshot/mugshot.c:853-864 | the query string first, then the body if it is a form |
| Routes.MatchInvertsFill | mugshot/mugshot.c:897-942 | a route filled with values matches and gives back exactly these values if and only if none begins with a colon |
| Routes.MatchExactly | mugshot/mugshot.c:897-942 | a path without colons matches if and only if it is the route filled with values, up to one slash after the last parameter |
| Routes.FilledMatches | mugshot/mugshot.c:897-942 | such a path matches and gives back its values, each as its own slice |
| Routes.ParameterInFull | mugshot/mugshot.c:897-942 | a route with one parameter and a path for it, character by character |
| Routes.ColonPath | mugshot/mugshot.c:906-909 | the path that repeats the text of the route matches without giving a value |
| Endpoint.PathMatch | mugshot/mugshot.c:897-942 | true exactly when the path matches and all parameters are arguments; then an argument has a value exactly when the route gives it one |
| Endpoint.SourcesApart | mugshot/mugshot.c:1161-1177 | arguments of different names come from places of the request that do not overlap |
| Endpoint.TextKept | mugshot/mugshot.c:1178-1180 | decoding one slice leaves the text of every other alone |
| Endpoint.DecodeArguments | mugshot/mugshot.c:1178-1180 | every argument ends up as its own text decoded, whatever becomes of the others |
| Endpoint.ArrivesDecoded | mugshot/mugshot.c:1178-1180 | an argument arrives decoded if and only if it is a percent-encoding; any other keeps its length and the end of its text |
| Endpoint.HalfDecoded | mugshot/mugshot.c:1178-1180 | an instance of an argument whose start is overwritten |
| Endpoint.PathArgument | mugshot/mugshot.c:897-942 | a path parameter is matched and decoded to the text that was encoded |
| Endpoint.QueryArgument | mugshot/mugshot.c:839-852 | a query parameter is found and decoded to the text that was encoded |
| Endpoint.FormArgument | mugshot/mugshot.c:853-864 | a form parameter that the query string lacks is found and decoded to the text that was encoded |
| Endpoint.CallArguments | mugshot/mugshot.c:1161-1180 | from request to call: found exactly when every argument is given, and every encoded value of the path, the query string or the form arrives as it was |

## Left out

* Allocation failure and freeing: allocation is taken to succeed.
* Sockets, the accept loop, threads, timeouts, logging, file serving: what the server sends is a sequence of
  bytes that a read takes from the front, in full or not at all; what is written is appended to another.
* Growth by the golden ratio is modelled as the number times 1618 / 1000, rounded down; the C code multiplies
  by a floating-point constant, which may differ by one.
* Widths of `size_t` and `int` are not modelled for lengths and capacities, except where a format or a
  condition depends on them: the 16- and 32-bit fields of messages, the 64-bit count of SHA-1, the position
  that mark_len keeps in an int.
* Hash functions are arbitrary functions. The slot `hash & (count - 1)` is modelled as the remainder modulo a
  power of two. String-key modes, the string arena and the default entry's storage of stb_ds are not modelled;
  the default is a field.
* The tables of the string pools are fields of type `seq` that the methods reassign, not arrays; a pool is
  looked up for non-empty strings without NUL, as C strings are, since an empty slot is told by its length.
  Attributes, children and contents of a node, and the arguments of a query, are `seq` as well.
* The contents record of a text line is taken to be allocated, as the inline path allocates it.
* Error reports are modelled as an outcome that ends the call; their texts, notices and traces are not.
  What is in the string buffer after an error report is not stated.
* PostgreSQL is a function from SQL text and arguments to a failure or to columns and rows, and a function
  from values to text. SQL NULLs in columns are not modelled. That columns depend on the SQL text and not on
  the arguments is a condition of the scoping theorem, as it is for prepared statements.
- SqlText.Scan: standard strings have no backslash escapes, as by default, and a string with escapes that goes
  on after a line break is read as a standard string there. Operators and numbers are single characters.
- ScopeLeaks.LexicalExactly: left open are templates with a query that asks for a name which may have been
  overwritten and has nothing visible in its element, so that its rows show only in what they bind or in a
  failure, and templates with a query that asks for a name which nothing has bound by then: wherever that
  query is reached, the renderer reports an error.
- PgConns.PgConn.Close: on the failure path at mugshot/mugshot.c:1034-1039 the C code frees the connection and
  then calls pg_clear on it, and the `close` field is not set there. In the model `close` stands for both, a
  connection marked for closing and one that is gone.
- Renderer.Renderer.Query: a query has fewer than 2^31 items, since a C int counts its arguments.
- Templates.RenderFunction: the function's arguments have names. The lookup of an empty name ends in an error
  report, unless the name table is exactly full.
* The fields of an ErrorResponse are read but their severity and message are not kept, and the HTTP error
  that answers a failure is one outcome. The status line and headers of a reply are not modelled.
* Malformed rows: reading a column is stated for well-formed DataRow payloads only.
- PgSession.ServedExactly: replies with CopyIn, CopyOut, EmptyQueryResponse or PortalSuspended are not among
  the conformant ones, since the batch has no query that asks for them. A payload is shorter than 2^31 bytes.
  ParameterStatus and NotificationResponse, which may come at any time, are not among them either. The code
  does not know them and takes one for an unexpected message: see PgSession.ExpectStep and PgSession.NextRowStep.
- PgConns.PgConn.PutQuery: the whole buffer stays below 2^31 bytes, since mark_len keeps its place in an int.
- UrlDecode.StrUrlDecode: a C char is taken to be signed, so bytes from 128 up that are not encoded are
  refused; where char is unsigned they would be accepted.
- Base64.Base64Encode: a null input or output is not modelled.
* Authentication, the startup exchange, result field descriptions and array values of the wire client.
* The trie, which routing does not use, and the incremental reading of a request.
* muggin_free, the template loader callback, the browser-side converter and the older test program.
