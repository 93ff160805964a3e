# WriteExcel core, modelled in Dafny

WriteExcel builds Excel workbooks from rows of text. A caller creates
*areas* on sheets, adds header rows (column texts separated by `/`) and
data rows to them, and writes each area out. Every cell text may start with
a format specifier `{[merge][.]style}`. It names a style, or defines one
inline with `:`, and it can merge the cell with the cells to its right.
Styles are order strings such as `bCBG(245,255,245)`. They are parsed
into attributes and combined with the row style (stripes, row formats)
and with the data-format rule that classifies the text (integer, fixed
decimals or text). The result is one cell style per combination, cached by
key. Around this core sit the hyperlink address builders, the
command-line parameter parser `Parm`, and the token and column-map parser
of `ReadExcelFile`.

The model follows the Java source's structure:

| module (file) | models |
|---|---|
| `Results` (results.dfy) | `Option`, `Result` |
| `JavaText` (java_text.dfy) | `trim`, `indexOf`, `split` (including `String.split`'s trailing-empty rule), `Integer.parseInt`, `Long.decode`, 32-bit wrap-around |
| `StyleOrders` (style_orders.dfy) | the order matchers, `applyMatcher`, `parseStyleAttrs`, `setColorRGB`'s triple path, `insertStyleDef` |
| `FormatSpec` (format_spec.dfy) | the `{...}` specifier pattern, `parseCellData`, `parseHeader` |
| `DataFormats` (data_formats.dfy) | `createDataFormat` with the negative-number policy, the builtin rules, `setCellContent`'s classification |
| `Composition` (composition.dfy) | `chooseStyle`'s key and precedence, `performStyleMerge`, `registerStyle`'s cache |
| `Session` (session.dfy) | the writer's state: `setNegativeFormat`, `addDataFormat`, `addStyleDefn`, `createArea`'s one-time set-up, `setCellContent`, `getDefaultFmt`, `useLinkStyle` |
| `Areas` (areas.dfy) | the `Area` class: `addRow` variants, stripes, headers, the `zap` mutators, `colWidth`, `addDataFilterLine` |
| `Layout` (layout.dfy) | `calcDimensions` and `writeArea` as a list of sheet writes (cells, merged regions, widths, freeze pane) |
| `Writer` (writer.dfy) | `writeArea` performed against the session, cell by cell |
| `Links` (links.dfy) | the link address strings built by `makeStdLink`/`makeUniLink`, and the `CellAddress` form they should agree with |
| `Parms` (parms.dfy) | `Parm`'s constructor, `processArguments`, `checkParms`, `addProp`/`getProp`/`isTrue`, `printHelp` |
| `ReadExcel` (read_excel.dfy) | `makeTokenArray`, the column-map parse of `makeColMap`, `dequote` |

State is passed explicitly. A `Book` value holds the writer's policy,
style definitions, rules and style cache. An `Area` value holds one
area. Each mutator returns the new value, or an `Err` carrying the
message the Java code throws. POI is replaced by the operations
(`Layout.Op`) and the effects they leave (`Writer.Emitted`). User regular
expressions are an oracle parameter, `find(regex, text)`. Setters that
`Parm` calls through its `PS` interface become `Setting` records.

## Model

Source paths are relative to the repository root.

| member | source | states |
|---|---|---|
| JavaText.Wrap32 | src/com/psec/excel/WriteExcel.java:313 | the Java `int` sum: a 32-bit value congruent to the exact sum modulo 2^32, and equal to it when it fits |
| JavaText.Trim | src/com/psec/excel/ReadExcelFile.java:510 | `trim`: a contiguous part of the text, with only blanks and control characters cut from either end, and starting and ending with neither |
| JavaText.TrimOfTrimmed | src/com/psec/excel/ReadExcelFile.java:513 | `trim` leaves a text with no blank at either end unchanged |
| JavaText.IndexOfFrom | src/com/psec/excel/ReadExcelFile.java:322 | `indexOf(c, from)`: the first position at or after `from` holding `c`, or none when no later position holds it |
| JavaText.LastIndexOf | src/com/psec/excel/WriteExcel.java:1956 | `lastIndexOf`: the last position holding the character, or none when it does not occur |
| JavaText.JoinSplitAll | src/com/psec/excel/ReadExcelFile.java:317-339 | the pieces between delimiters, joined with the delimiter, give the text back |
| JavaText.SplitAllCount | src/com/psec/excel/ReadExcelFile.java:318-326 | there is one more piece than delimiters |
| JavaText.SplitAllOfJoin | src/com/psec/excel/WriteExcel.java:2040 | splitting a join of delimiter-free pieces at the delimiter gives the pieces back |
| JavaText.JavaSplit | src/com/psec/excel/WriteExcel.java:1921 | `String.split` on one character: a text without it is one piece, and trailing empty pieces are dropped |
| JavaText.DropTrailingEmpty | src/com/psec/excel/WriteExcel.java:1921 | the longest prefix of the pieces that does not end in an empty piece; everything dropped is empty |
| JavaText.JavaSplitWithin | src/com/psec/excel/WriteExcel.java:1921 | every character of a `String.split` piece comes from the text |
| JavaText.ParseDigits | src/com/psec/excel/ReadExcelFile.java:306 | a non-empty digit run parses exactly when its value fits an `int`, and then to that value |
| JavaText.NatToString | src/com/psec/excel/WriteExcel.java:2030 | decimal text of a natural number: digits only, no leading zero, reading back as the number |
| JavaText.ParseInt | src/com/psec/excel/WriteExcel.java:2041 | `Integer.parseInt`: the empty text fails, a digit run parses exactly when it fits an `int`, and a `-` negates |
| JavaText.ParseIntToString | src/com/psec/excel/WriteExcel.java:2041 | `Integer.parseInt` reads back every `int` written in decimal |
| JavaText.DecodeLong | src/com/psec/excel/WriteExcel.java:1669 | `Long.decode`: a result is a `long` and the text is not empty. Plain decimal decodes exactly when it fits a `long`, to its value. A leading `0` followed by more characters decodes exactly when the rest is octal and fits, to its octal value, so an `8` or `9` after the `0` throws. A doubled `-` throws |
| JavaText.DecodeNegated | src/com/psec/excel/WriteExcel.java:1669 | a leading `-` negates what the rest decodes to, both ways, except for the magnitude that only fits negated |
| JavaText.DecodeLeadingZero | src/com/psec/excel/WriteExcel.java:1669 | "010" decodes to 8 and "09" throws |
| JavaText.DecodeIntToString | src/com/psec/excel/WriteExcel.java:1669 | `Long.decode` reads back every `long` written in decimal |
| StyleOrders.FindFrom | src/com/psec/excel/WriteExcel.java:1622-1630 | the matcher's `find`: the leftmost position at or after the start where the pattern matches, and none when it matches nowhere |
| StyleOrders.Strip | src/com/psec/excel/WriteExcel.java:1622-1630 | `applyMatcher`: a hit exactly when the pattern occurs. The leftmost match is removed once, and its group is the payload; without a hit the text is unchanged |
| StyleOrders.LetterStrip | src/com/psec/excel/WriteExcel.java:1529-1548 | a one-letter order hits exactly when its letter occurs. Its removal keeps every other letter, and the payload is the letter |
| StyleOrders.ColorOf | src/com/psec/excel/WriteExcel.java:1595-1600 | a comma-free colour is a name; an RGB triple has each component reduced to a byte |
| StyleOrders.TripleColor | src/com/psec/excel/WriteExcel.java:1598-1599 | a triple of `int` decimals gives the RGB of their values modulo 256, the way `(byte)` casts them |
| StyleOrders.AttrsOf | src/com/psec/excel/WriteExcel.java:1557-1590 | the attributes: background-only exactly when `BG` hit and no other order did, an exit aside; it then has a fill, no font and no vertical alignment. Any other style gets the last vertical order seen, or `M`. Alignment is one of `LCR`, a total mark is one of `=-~` and needs a font, `f` overrides `FF(...)` as the family, and the exit is the `CE` name |
| StyleOrders.ParseStyleAttrs | src/com/psec/excel/WriteExcel.java:1553-1593 | a text with no parenthesis always parses. Background-only exactly when the scan of the text hits `BG` and nothing else but an exit, with a fill and no font; otherwise the vertical alignment is the last vertical order, or `M` |
| StyleOrders.FontFamilyWholeMatch | src/com/psec/excel/WriteExcel.java:1563 | `FF(name)` alone, for a name without parentheses, parses with the whole match `FF(name)` as the family, and needs a font |
| StyleOrders.FixedFontWins | src/com/psec/excel/WriteExcel.java:1563-1564 | in `fFF(x)` the later `f` order replaces the family with the fixed font |
| StyleOrders.ExitName | src/com/psec/excel/WriteExcel.java:1561 | `CE(name)` alone, for a name of letters, digits, `-` and `_`, parses with that name as the exit and needs no font |
| StyleOrders.NoCommaParses | src/com/psec/excel/WriteExcel.java:1598-1599 | only a colour with commas, whose components overflow `parseInt`, can make the parse fail |
| StyleOrders.NoParenScan | src/com/psec/excel/WriteExcel.java:1539-1540 | without a parenthesis neither `FG(...)` nor `BG(...)` is found |
| StyleOrders.OrdersDistinct | src/com/psec/excel/WriteExcel.java:1529-1548 | no two one-letter matchers share a letter, so each letter selects one attribute |
| StyleOrders.LettersParseByMembership | src/com/psec/excel/WriteExcel.java:1553-1593 | for a text of plain letters the parse depends only on which letters occur, independently of their order |
| StyleOrders.LaterOrderWins | src/com/psec/excel/WriteExcel.java:1569-1579 | the matcher applied later overrides: `L` and `R` give right, `=` and `~` give `~`, and `T` and `B` give bottom |
| StyleOrders.BackgroundTripleIsBackOnly | src/com/psec/excel/WriteExcel.java:1585-1586 | `BG(r,g,b)` alone parses to a background-only style filled with that colour |
| StyleOrders.BackOnlyParse | src/com/psec/excel/WriteExcel.java:1585-1586 | any text whose only hit is a `BG` colour is background-only, with that fill |
| StyleOrders.InsertStyleDef | src/com/psec/excel/WriteExcel.java:1355-1363 | filing succeeds exactly when the orders parse. The name is then defined by those orders, and every other definition is kept |
| StyleOrders.FileStyle | src/com/psec/excel/WriteExcel.java:1361 | a parsed definition is filed under its name. A redefinition replaces the earlier one, and nothing else changes |
| FormatSpec.DigitRun | src/com/psec/excel/WriteExcel.java:479 | the longest run of leading digits |
| FormatSpec.LineHead | src/com/psec/excel/WriteExcel.java:479 | `.*` stops at the first line terminator: the result is the longest prefix without one |
| FormatSpec.MatchTag | src/com/psec/excel/WriteExcel.java:479 | the specifier pattern matches exactly when the text starts with `{` and contains a `}` |
| FormatSpec.MatchRenderTag | src/com/psec/excel/WriteExcel.java:479 | matching a rendered well-formed specifier gives back its merge digits, dot, style name and rest |
| FormatSpec.MatchTagIsPrefix | src/com/psec/excel/WriteExcel.java:479 | a match is well formed, and its rendering is a prefix of the text that reaches to the end of the line |
| FormatSpec.InnerTagParts | src/com/psec/excel/WriteExcel.java:479 | the merge group is all digits, the style group holds no `}`, and it starts with neither a digit nor a dot unless the dot was taken |
| FormatSpec.InnerTagRebuilds | src/com/psec/excel/WriteExcel.java:479 | the merge digits, dot and style group concatenate back to the text between the braces |
| FormatSpec.MergeOf | src/com/psec/excel/WriteExcel.java:1636-1641 | a leading `0` marks the cell plain with no merge; otherwise the merge is the digits' value, and a value past `int` fails |
| FormatSpec.ParseSpec | src/com/psec/excel/WriteExcel.java:1632-1654 | untagged text is plain data. A tag's data is the rest of the line after the `}`. An inline style is a `:` name, a plain cell does not merge, and a merge fits an `int` |
| FormatSpec.ParseRenderSpec | src/com/psec/excel/WriteExcel.java:1632-1654 | parsing a rendered well-formed specifier gives it back |
| FormatSpec.MergeOfSpec | src/com/psec/excel/WriteExcel.java:1636-1641 | the merge digits of a rendered specifier read back as its merge count and plain mark |
| FormatSpec.ParseCellData | src/com/psec/excel/WriteExcel.java:1632-1654 | the specifier is the parsed one. An inline `:` style is registered only when its name is not yet defined; otherwise the definitions are unchanged |
| FormatSpec.InlineStyleRegisteredOnce | src/com/psec/excel/WriteExcel.java:1646-1649 | parsing the same text again with the definitions it produced changes nothing |
| FormatSpec.ExistingStyleKept | src/com/psec/excel/WriteExcel.java:1646-1649 | no existing definition is changed by parsing a cell |
| FormatSpec.HeaderOf | src/com/psec/excel/WriteExcel.java:1921-1938 | a header column parses exactly when its specifier does. An untagged column is its own text in the header style with no merge; a tagged one keeps the text after the tag, the tag's merge and plain mark, and its style name or else the header style |
| FormatSpec.HeaderOfRendered | src/com/psec/excel/WriteExcel.java:1921-1938 | the header read from a rendered specifier carries that spec's text, merge count and plain mark, and its style name or else the header style |
| FormatSpec.ParseHeader | src/com/psec/excel/WriteExcel.java:1918-1942 | one header cell per `split("/")` piece, each that piece's `HeaderOf`; it fails only when some piece's specifier fails |
| FormatSpec.HeadersFrom | src/com/psec/excel/WriteExcel.java:1920-1940 | the header cells of the pieces from a position on, each at its own index |
| FormatSpec.PlainHeaderTexts | src/com/psec/excel/WriteExcel.java:1918-1942 | without `{` the header texts are exactly the `split("/")` pieces, with the default style and no merges |
| DataFormats.NegativeSection | src/com/psec/excel/WriteExcel.java:1376-1381 | a negative section exists exactly for the policies `""`, `-` and `()`, and starts with `;` |
| DataFormats.CreateDataFormat | src/com/psec/excel/WriteExcel.java:1365-1386 | the rule is integer exactly when its format has no `.`. A format without `;` gets a negative section under a policy, it is kept as is without one, and an unknown policy throws |
| DataFormats.NegativeSectionsSplit | src/com/psec/excel/WriteExcel.java:1376-1381 | the extended format splits at `;` into the original format and its negative form |
| DataFormats.RedWithoutPolicyKeepsFormat | src/com/psec/excel/WriteExcel.java:1374-1375 | red negatives without a negative format leave the format unchanged |
| DataFormats.Builtins | src/com/psec/excel/WriteExcel.java:1347-1349 | the six builtin rules, `@int`, `@nm1`, `@num`, `@nm3`, `@nm4` and catch-all `@str`, in that order; registration fails exactly under an unknown policy |
| DataFormats.Register | src/com/psec/excel/WriteExcel.java:1365-1386 | under a known policy, registering a rule cannot fail |
| DataFormats.KeepNumeric | src/com/psec/excel/WriteExcel.java:1666 | `replaceAll("[^0-9.-]","")`: only digits, dots and minus signs remain, a text made of them is unchanged, and a single character is kept exactly when it is one of them |
| DataFormats.KeepNumericAppend | src/com/psec/excel/WriteExcel.java:1666 | stripping a concatenation strips each part, so every numeric character is kept, in order, and every other one dropped |
| DataFormats.Convert | src/com/psec/excel/WriteExcel.java:1660-1674 | a catch-all rule stores the text. An integer rule succeeds exactly when `Long.decode` reads the stripped text, and stores that value. A decimal rule succeeds exactly when `parseDouble` reads the stripped text, and stores it |
| DataFormats.ConvertStoresNumber | src/com/psec/excel/WriteExcel.java:1666-1670 | an integer rule stores `n` for any text whose numeric characters spell `n` |
| DataFormats.PunctuatedInteger | src/com/psec/excel/WriteExcel.java:1666-1670 | "$1,234" is stored by an integer rule as 1234 |
| DataFormats.LeadingZeroOctal | src/com/psec/excel/WriteExcel.java:1663-1670 | with the builtins, `@int` stores "010" as 8, and "09" makes `setCellContent` throw |
| DataFormats.FirstApplicable | src/com/psec/excel/WriteExcel.java:1659-1679 | the first rule whose pattern finds the text, or that has none; none when no rule applies |
| DataFormats.Classify | src/com/psec/excel/WriteExcel.java:1658-1680 | the stored value comes from the first applicable rule. It fails exactly when no rule applies or that rule's conversion fails |
| DataFormats.IntegersRoundTrip | src/com/psec/excel/WriteExcel.java:1347-1349 | with the builtins, every `long` written in decimal is stored as that integer by `@int` |
| DataFormats.NonNumericIsText | src/com/psec/excel/WriteExcel.java:1347-1349 | with the builtins, a text without digits falls to `@str` and is stored as text |
| DataFormats.UserRulesFirst | src/com/psec/excel/WriteExcel.java:1659-1679 | rules registered before the builtins decide first: the first user rule that applies is the one used |
| Composition.PointsOf | src/com/psec/excel/WriteExcel.java:1464 | a point size is set exactly when the text has a digit other than `0` |
| Composition.DigitsNonZero | src/com/psec/excel/WriteExcel.java:1464 | a digit run's value is not zero exactly when one of its digits is not `0` |
| Composition.PointsOfNumber | src/com/psec/excel/WriteExcel.java:1569 | for the texts the points pattern takes, `a` or `a.b`, the size is set exactly when the number they spell (`a`, or `a` scaled past `b`'s digits plus `b`) is not zero |
| Composition.NonZeroDigitOfFraction | src/com/psec/excel/WriteExcel.java:1535 | a non-zero digit of `a.b` is one of `a` or of `b` |
| Composition.FontOf | src/com/psec/excel/WriteExcel.java:1457-1476 | the font takes the family, bold, italic and strike-out of the attributes and a non-zero point size. It is underlined exactly for a link without a foreground colour; the colour is the foreground, else blue for a link, else the default |
| Composition.PerformStyleMerge | src/com/psec/excel/WriteExcel.java:1448-1520 | the data format is the rule's. With a primary style: its attributes' `FontOf` exactly when they need a font; its fill and exit; its alignment, else right under a data format; `M` vertically only under a data format when it has no vertical alignment; `-` a medium top border, `~` a double top, `=` double top and bottom, no total mark no border. A fill-less named style takes a background-only row style's fill |
| Composition.VerticalOrdersIgnored | src/com/psec/excel/WriteExcel.java:1491-1495 | the vertical orders `T`/`M`/`B` never change the realized style, because the switch dispatches on the horizontal character |
| Composition.Choose | src/com/psec/excel/WriteExcel.java:1405-1440 | no style exactly without a row style, a name or a pattern. The key is the rule name alone with neither; otherwise `/name` and `/row` are added by the precedence rules |
| Composition.KeyListsChoice | src/com/psec/excel/WriteExcel.java:1409-1439 | the key splits at `/` into the rule name, then the resolved style name, then the row style kept |
| Composition.FilledNameBeatsRow | src/com/psec/excel/WriteExcel.java:1431-1435 | a named style with its own fill always drops the row style |
| Composition.Lookup | src/com/psec/excel/WriteExcel.java:1441-1445 | a key already cached returns its style untouched; a new key files one new style at the next handle |
| Composition.LookupKeepsHandles | src/com/psec/excel/WriteExcel.java:1388-1393 | filing a style never changes the handle of a key already filed |
| Composition.ChooseStyle | src/com/psec/excel/WriteExcel.java:1405-1446 | no handle exactly when no style applies. At most one style is created, and the earlier styles are kept |
| Composition.ChooseStyleIdempotent | src/com/psec/excel/WriteExcel.java:1441-1442 | choosing the same style twice returns the same handle and creates nothing the second time |
| Composition.MissCreatesMerge | src/com/psec/excel/WriteExcel.java:1444-1445 | on a cache miss the new style is the merge of the chosen named and row styles |
| Session.SetNegativeFormat | src/com/psec/excel/WriteExcel.java:1274-1277 | only the negative policy changes |
| Session.AddDataFormat | src/com/psec/excel/WriteExcel.java:587-590 | the rule is created under the current policy and appended after the earlier ones; an unknown policy fails |
| Session.AddStyleDefn | src/com/psec/excel/WriteExcel.java:647-650 | succeeds exactly when the orders parse; only that one definition changes |
| Session.AddStyleDefnFiles | src/com/psec/excel/WriteExcel.java:1355-1363 | a successful filing defines the name by its orders |
| Session.FillPairs | src/com/psec/excel/WriteExcel.java:1351-1353 | each standard background is `name:BG(r,g,b)`, in table order |
| Session.FileAll | src/com/psec/excel/WriteExcel.java:1327-1344 | filing a list succeeds exactly when every entry parses |
| Session.FileAllKeeps | src/com/psec/excel/WriteExcel.java:1327-1344 | a definition the list does not name survives the filing |
| Session.FileAllDefines | src/com/psec/excel/WriteExcel.java:1327-1344 | each name ends defined by its last entry in the list |
| Session.FillIsBackOnly | src/com/psec/excel/WriteExcel.java:1337-1343 | every standard background parses as background-only, so the contaminant warning is never logged |
| Session.StandardStylesParse | src/com/psec/excel/WriteExcel.java:1327-1344 | all twelve standard styles (headers, common variants, backgrounds) parse |
| Session.StandardNamesDistinct | src/com/psec/excel/WriteExcel.java:888-914 | each of the twelve standard styles is the last entry under its name |
| Session.Initialize | src/com/psec/excel/WriteExcel.java:1317-1345 | the set-up succeeds exactly under a known policy; the builtin rules then follow the user rules |
| Session.AddBuiltins | src/com/psec/excel/WriteExcel.java:1318-1325 | the builtins are appended after the user's rules, and nothing else changes |
| Session.FileStandardStyles | src/com/psec/excel/WriteExcel.java:1327-1344 | filing the standard styles succeeds exactly when they all parse, and changes only the definitions |
| Session.InitializeDefines | src/com/psec/excel/WriteExcel.java:1317-1345 | after set-up each standard style is defined by its own orders |
| Session.InitializeKeeps | src/com/psec/excel/WriteExcel.java:1317-1345 | a user definition not named by a standard style survives set-up |
| Session.InitializeFills | src/com/psec/excel/WriteExcel.java:1337-1343 | after set-up each standard background is background-only, with its table colour |
| Session.CreateArea | src/com/psec/excel/WriteExcel.java:866-877 | the first call sets the session up, once; later calls change nothing. The area is a fresh one at the position, and a failed set-up is not retried |
| Session.SetCellContent | src/com/psec/excel/WriteExcel.java:1656-1687 | the cell's specifier and inline registration are `parseCellData`'s. The value comes from the first applicable rule, and there is no style exactly when nothing asks for one; only the definitions and the cache change |
| Session.DefaultRule | src/com/psec/excel/WriteExcel.java:1689-1696 | the first rule without a pattern, or none when every rule has one |
| Session.LinkStyle | src/com/psec/excel/WriteExcel.java:1765-1768 | a link cell's style is chosen with the catch-all rule and `#lkc` by default; it fails exactly on a bad specifier or a missing catch-all |
| Session.CatchAllAfterBuiltins | src/com/psec/excel/WriteExcel.java:1689-1696 | once the builtins are registered, a catch-all rule exists |
| Areas.NewArea | src/com/psec/excel/WriteExcel.java:866-877 | a fresh area at the position, with no headers, rows or row styles |
| Areas.AddColFmt | src/com/psec/excel/WriteExcel.java:457-462 | only the row-style list changes, and nothing at all when there is no style and no list |
| Areas.AddStripe | src/com/psec/excel/WriteExcel.java:280-288 | only the row-style list changes |
| Areas.AddRow | src/com/psec/excel/WriteExcel.java:249-252 | the row is appended, with no style. Every earlier row keeps its style, and headers and position are unchanged |
| Areas.AddRowFmt | src/com/psec/excel/WriteExcel.java:274-278 | the style applies to exactly the new row, and every earlier row keeps its style |
| Areas.AddRowStripe | src/com/psec/excel/WriteExcel.java:261-265 | the new row gets the odd or even background, and every earlier row keeps its style |
| Areas.RowStyleLands | src/com/psec/excel/WriteExcel.java:457-462 | a style recorded after a row is added lands at that row, even when earlier rows had none |
| Areas.AddHeader | src/com/psec/excel/WriteExcel.java:385-402 | succeeds exactly when the header texts parse, and appends them as one header row |
| Areas.ZapColText | src/com/psec/excel/WriteExcel.java:422-428 | fails exactly where Java indexes a negative position. Past the end nothing changes; otherwise only the one cell is replaced |
| Areas.HdrAt | src/com/psec/excel/WriteExcel.java:464-469 | the header cell when the position exists; fails exactly where Java indexes a negative position |
| Areas.ZapHdrFmt | src/com/psec/excel/WriteExcel.java:436-441 | only the style of the one header cell changes, and the header shape is kept |
| Areas.ZapHdrText | src/com/psec/excel/WriteExcel.java:449-454 | only the text of the one header cell changes, and the header shape is kept |
| Areas.ColWidth | src/com/psec/excel/WriteExcel.java:312-319 | a width is set exactly when the 32-bit absolute column is not negative: `chars*256` in 32-bit, exact when no overflow |
| Areas.ColWidthsCover | src/com/psec/excel/WriteExcel.java:298-303 | the range form sets exactly the widths of the range's columns that have one |
| Areas.ColWidthsInOrder | src/com/psec/excel/WriteExcel.java:298-303 | over a range that fits, every column gets its width, once, in column order |
| Areas.AsWrittenColumnsNeverEnd | src/com/psec/excel/WriteExcel.java:299 | with the last column at `Integer.MAX_VALUE` the loop as written never finishes, however long it runs |
| Areas.AsWrittenColumnsAgree | src/com/psec/excel/WriteExcel.java:299-301 | below `Integer.MAX_VALUE` the loop as written visits exactly the columns of the range, in order |
| Areas.FilterLine | src/com/psec/excel/WriteExcel.java:192-203 | the columns below the widest column that row 0 does not already hold: each exactly once, ascending |
| Layout.MergeCount | src/com/psec/excel/WriteExcel.java:2024-2026 | no tag, or a tag without digits, merges 0 cells; digits led by `0` merge 0; other digits merge their value, and fail past `int` |
| Layout.MergeCountRendered | src/com/psec/excel/WriteExcel.java:2024-2026 | a rendered specifier's merge count reads back unchanged |
| Layout.Visible | src/com/psec/excel/WriteExcel.java:1956 | a suffix of the cell. An untagged cell, or one with no `}`, is unchanged. A tagged cell with a `}` loses everything up to its last `}`: the part kept follows a `}` and holds none |
| Layout.InitialSizing | src/com/psec/excel/WriteExcel.java:1949-1950 | a column starts at the header text's length capped at 10, with multiplier 320 |
| Layout.TrackCovers | src/com/psec/excel/WriteExcel.java:1951-1963 | the column is at least as wide as every shown cell's visible text |
| Layout.TrackValue | src/com/psec/excel/WriteExcel.java:1951-1963 | the tracked length is unchanged when no shown cell's visible text exceeds it. Otherwise it is the full length, tag included, of a shown cell whose visible text exceeded the start, and the multiplier is 280 |
| Layout.TrackKeepsRawLength | src/com/psec/excel/WriteExcel.java:1956-1959 | `{:x}abcdefghijk` is compared by its 11 visible characters but tracked as 15 |
| Layout.TrackNarrows | src/com/psec/excel/WriteExcel.java:1957-1958 | the multiplier is 280 exactly when some cell's visible text was longer than the width so far, and 320 otherwise |
| Layout.TrackStaysNarrow | src/com/psec/excel/WriteExcel.java:1958 | once a column narrows to 280 it stays at 280 |
| Layout.HeaderPuts | src/com/psec/excel/WriteExcel.java:1981-1988 | one cell write per header cell, all on the header's sheet row |
| Layout.HeaderRegions | src/com/psec/excel/WriteExcel.java:1990-1997 | every region is a span on the header's sheet row |
| Layout.HeaderWidth | src/com/psec/excel/WriteExcel.java:1998 | the width is set at the header cell's own column, offset by the area's first column, to the column's tracked length times its multiplier; `HeaderWidthRule` gives the two cases |
| Layout.HeaderWidthRule | src/com/psec/excel/WriteExcel.java:1947-1963 | the width is 320 per character of the header text (at most ten) unless a data cell's visible text is longer, and then 280 per character of such a cell's full text |
| Layout.HeaderWidths | src/com/psec/excel/WriteExcel.java:1998 | one width per cell of the last header row, each that column's `HeaderWidth` |
| Layout.HeaderRow | src/com/psec/excel/WriteExcel.java:1973-2002 | a header row sets no freeze pane, and sets widths only on the last header row when it has no merge |
| Layout.HeaderRows | src/com/psec/excel/WriteExcel.java:1973-2002 | the header rows' writes are all header operations of the area |
| Layout.Fills | src/com/psec/excel/WriteExcel.java:2027-2029 | a merged cell's following columns get an empty text each, in order |
| Layout.CellOps | src/com/psec/excel/WriteExcel.java:2024-2029 | a placed cell writes its span of columns from its own column, on its row |
| Layout.CellsOps | src/com/psec/excel/WriteExcel.java:2018-2036 | a data row's cell writes are all on its sheet row |
| Layout.MergeRegions | src/com/psec/excel/WriteExcel.java:2038-2046 | the merged regions of a data row are spans on that row |
| Layout.DataRowOps | src/com/psec/excel/WriteExcel.java:2009-2047 | a data row writes only cells and regions, all on its own sheet row |
| Layout.DataRows | src/com/psec/excel/WriteExcel.java:2009-2047 | the data rows write only cells and regions |
| Layout.DataRowsSpan | src/com/psec/excel/WriteExcel.java:325-343 | every data-row write lies on the sheet rows from `getDataRow` (plus the row index) to the row before `getAbsRow` |
| Layout.PlaceCellsSpec | src/com/psec/excel/WriteExcel.java:2018-2019 | cells are placed up to the shorter of the row and the header row, unless a specifier fails at that cell |
| Layout.PlaceCellsAt | src/com/psec/excel/WriteExcel.java:2020-2032 | each placed cell sits at its header's column pushed right by the merges before it, with its text and merge count |
| Layout.CellsOpsTile | src/com/psec/excel/WriteExcel.java:2023-2032 | the cell writes of contiguous placements cover consecutive columns, one write each |
| Layout.RowPlacements | src/com/psec/excel/WriteExcel.java:2018-2032 | every placement of a data row is at its cell's column |
| Layout.RowContiguous | src/com/psec/excel/WriteExcel.java:2032 | each placement starts where the previous one's span ends |
| Layout.DataCellPlaced | src/com/psec/excel/WriteExcel.java:2018-2046 | every data cell under a header is written at its sheet position, with the row style. Its merge's fills follow, and its region is added |
| Layout.DataRowTiles | src/com/psec/excel/WriteExcel.java:2018-2046 | a data row's cell writes fill consecutive columns from the base column, none skipped or written twice, then come the regions |
| Layout.RowEnd | src/com/psec/excel/WriteExcel.java:2023-2032 | the first placement is at the base column, and the placements end at the row's total span |
| Layout.HeaderPutsAt | src/com/psec/excel/WriteExcel.java:1981-1988 | each header cell is written at its index pushed right by the merges before it |
| Layout.HeaderRegionsHas | src/com/psec/excel/WriteExcel.java:1990-1996 | each merging header cell gets its region, at its shifted column |
| Layout.HeaderCellPlaced | src/com/psec/excel/WriteExcel.java:1973-1997 | every header cell is written at its sheet position with its style and text, and a merging one gets its region |
| Layout.HeaderPutsFromStart | src/com/psec/excel/WriteExcel.java:1981-1988 | the header cell writes, from the first cell, put each cell at its shifted column |
| Layout.LayoutParts | src/com/psec/excel/WriteExcel.java:1967-2049 | a completed layout is the header rows' writes, the freeze pane, then the data rows' writes |
| Layout.LayoutHasHeaderRow | src/com/psec/excel/WriteExcel.java:1973-2002 | every header row's writes are in the layout |
| Layout.LayoutHasDataRow | src/com/psec/excel/WriteExcel.java:2009-2047 | every data row's writes are in a completed layout, which then has a header row |
| Layout.LayoutFreeze | src/com/psec/excel/WriteExcel.java:2003-2005 | the freeze pane below the headers is set exactly when there is a header row, and it is the only freeze |
| Layout.CleanLayoutFreezes | src/com/psec/excel/WriteExcel.java:2003-2005 | a completed layout with a header row freezes below it |
| Layout.LayoutOps | src/com/psec/excel/WriteExcel.java:1967-2049 | the layout's writes are the header rows', then the freeze pane, then the data rows' |
| Layout.LayoutWidthFrom | src/com/psec/excel/WriteExcel.java:1998 | every width in a layout comes from a column of a merge-free last header row |
| Layout.LayoutWidthSet | src/com/psec/excel/WriteExcel.java:1998 | every column of a merge-free last header row gets its width |
| Layout.LayoutWidths | src/com/psec/excel/WriteExcel.java:1990-1999 | widths are set only for a merge-free last header row, and then for all its columns |
| Layout.DataRowStable | src/com/psec/excel/WriteExcel.java:2009-2047 | a data row's writes depend only on that row, its style and the last header row |
| Layout.RelayoutAfterAddRow | src/com/psec/excel/WriteExcel.java:249-252 | adding a row does not change how the earlier rows are written |
| Layout.MaxCol | src/com/psec/excel/WriteExcel.java:2035 | the widest column is past every cell written, and is either the old value or one past some written cell |
| Layout.MaxColCoversRow | src/com/psec/excel/WriteExcel.java:2035 | the widest column reaches past every data row's span |
| Layout.NotesBy | src/com/psec/excel/WriteExcel.java:2030 | one merge note per merging placement, at most one per cell |
| Layout.NoteRegion | src/com/psec/excel/WriteExcel.java:2040-2044 | a parsed note gives a region on the row |
| Layout.NotedRegions | src/com/psec/excel/WriteExcel.java:2039-2045 | one region per note |
| Layout.NoteRoundTrip | src/com/psec/excel/WriteExcel.java:2030-2044 | a `col,merge` note read back gives the region from the column over `merge` columns |
| Layout.NotesGiveRegions | src/com/psec/excel/WriteExcel.java:2030-2046 | the notes of a row, written newest first and read back, give exactly the row's merged regions |
| Writer.Step | src/com/psec/excel/WriteExcel.java:2024 | one write is performed at its place. Only a cell can fail, exactly when `setCellContent` fails, and only the definitions and cache change |
| Writer.Run | src/com/psec/excel/WriteExcel.java:1967-2049 | the writes are performed in order, one effect each; a failure needs a cell write |
| Writer.RunWithoutCells | src/com/psec/excel/WriteExcel.java:1994-2006 | regions, widths and freezes alone cannot fail and leave the session unchanged |
| Writer.WriteArea | src/com/psec/excel/WriteExcel.java:1967-2049 | every layout write is performed, each cell holding its parsed specifier. A layout failure is an error, and the widest column is past every cell written |
| Writer.PutPerformed | src/com/psec/excel/WriteExcel.java:2024 | every cell write of the layout left its text at its place |
| Writer.FreezePerformed | src/com/psec/excel/WriteExcel.java:2004 | a freeze in the layout was performed |
| Writer.WriteAreaCell | src/com/psec/excel/WriteExcel.java:2018-2036 | a written area holds each data cell's text at its sheet row and column |
| Writer.PerformedLayoutFreezes | src/com/psec/excel/WriteExcel.java:2003-2005 | a written area with a header row froze the pane below its headers |
| Links.AsWrittenLetter | src/com/psec/excel/WriteExcel.java:1107 | the table letter at the column; fails exactly past the 25-letter table's end |
| Links.AsWrittenAddress | src/com/psec/excel/WriteExcel.java:1107 | `'sheet'!` plus the table letter plus the 32-bit row number plus one; fails exactly past the table |
| Links.AsWrittenRangeAddress | src/com/psec/excel/WriteExcel.java:1177-1180 | a single cell for one row; with more rows, `:` and the same letter at the last row |
| Links.AsWrittenUpToV | src/com/psec/excel/WriteExcel.java:1107 | up to column V the table letter is the column's name |
| Links.AsWrittenSkipsW | src/com/psec/excel/WriteExcel.java:1107 | column 22, named W, gets X; column 25, named Z, throws |
| Links.ColumnName | src/com/psec/excel/WriteExcel.java:1056 | the `CellAddress` column name: a non-empty run of capitals |
| Links.ColumnIndexOfName | src/com/psec/excel/WriteExcel.java:1056 | reading a column name gives its column back |
| Links.ColumnNameOfIndex | src/com/psec/excel/WriteExcel.java:1056 | every run of capitals is the name of exactly the column it reads as |
| Links.ReadCellRefOfRef | src/com/psec/excel/WriteExcel.java:1056 | a cell reference reads back as its row and column |
| Links.Address | src/com/psec/excel/WriteExcel.java:1107 | the intended link address: `'sheet'!` plus the cell reference |
| Links.RangeAddress | src/com/psec/excel/WriteExcel.java:1177-1180 | the intended range address: the cell, and with more rows `:` and the same column at the last row |
| Links.AsWrittenAddressAgrees | src/com/psec/excel/WriteExcel.java:1107 | up to column V the address as written is the intended one |
| Links.AsWrittenAgrees | src/com/psec/excel/WriteExcel.java:1177-1180 | up to column V the range address as written is the intended one |
| Parms.MakeParm | src/com/psec/util/Parm.java:332-339 | the flag is the first character of the flag text, a digit as its value; an empty flag text throws |
| Parms.TryEntry | src/com/psec/util/Parm.java:381-403 | a match uses one argument, or two for an exact entry with an extra; the value is absent exactly for an exact entry without an extra |
| Parms.PrefixEntryTakes | src/com/psec/util/Parm.java:381-390 | a prefix entry matches an argument starting with its prefix and takes the rest as value. An argument that is only the prefix throws, and so does a name shorter than the prefix |
| Parms.ExactEntryTakes | src/com/psec/util/Parm.java:392-402 | an exact entry matches only its name. Without an extra it has no value; with one it takes the next argument or throws |
| Parms.FindEntry | src/com/psec/util/Parm.java:378-405 | the first entry from a position that matches or throws, with what it takes |
| Parms.FindEntryFirst | src/com/psec/util/Parm.java:378-405 | no earlier entry matches; an exception is the first matching entry's |
| Parms.FindFirst | src/com/psec/util/Parm.java:378-405 | the loop over the table finds the first matching entry |
| Parms.ProcessFrom | src/com/psec/util/Parm.java:375-408 | the settings extend the ones so far, at most one per argument, each recorded for its entry |
| Parms.ProcessArguments | src/com/psec/util/Parm.java:373-409 | at most one setting per argument, each recorded for its entry |
| Parms.ProcessFront | src/com/psec/util/Parm.java:376-406 | the first argument is decided by the first matching entry: its exception, "not known", or the first setting |
| Parms.OneSettingEach | src/com/psec/util/Parm.java:381-403 | when no entry takes an extra argument, every argument gives one setting |
| Parms.ProcessFromRun | src/com/psec/util/Parm.java:375-408 | a success is a run of first-match steps from position to position that ends exactly at the last argument |
| Parms.RunProcessFrom | src/com/psec/util/Parm.java:375-408 | every such run to the end is what processing returns |
| Parms.ProcessFromStop | src/com/psec/util/Parm.java:375-408 | a failure is a run of steps to a position where no entry matches or the first match throws, and its message is that position's |
| Parms.RunStops | src/com/psec/util/Parm.java:375-408 | every run that gets stuck gives that position's message |
| Parms.ProcessArgumentsRun | src/com/psec/util/Parm.java:373-409 | success with some settings exactly when the settings are a first-match run covering all arguments |
| Parms.ProcessArgumentsStops | src/com/psec/util/Parm.java:373-409 | failure with some message exactly when a first-match run reaches a stuck position with that message |
| Parms.CheckParms | src/com/psec/util/Parm.java:361-371 | passes exactly when every mandatory entry was seen. Otherwise the first missing one is printed and the parm error is thrown |
| Parms.Parse | src/com/psec/util/Parm.java:205-213 | the arguments are processed, then the mandatory entries checked; processing's error comes first |
| Parms.AddProp | src/com/psec/util/Parm.java:123-131 | a `key=value` text files the value under the text before its first `=`; a text without `=` or starting with it is ignored |
| Parms.GetProp | src/com/psec/util/Parm.java:155-159 | the filed value, or the default when the key is absent |
| Parms.AddPropRoundTrip | src/com/psec/util/Parm.java:123-159 | after filing `key=value` the key reads back the value, and every other key reads as before |
| Parms.KeyValueSplits | src/com/psec/util/Parm.java:124-127 | the first `=` of `key=value` is right after the key |
| Parms.IsTrueOfAdded | src/com/psec/util/Parm.java:180-185 | a property filed as `key=value` is true exactly when the value starts with `t`, `T`, `y` or `Y` |
| Parms.IsTrueWords | src/com/psec/util/Parm.java:180-185 | `true`, `Yes` and `y` are true; `false`, `no`, the empty text and a missing key are not |
| Parms.HelpLine | src/com/psec/util/Parm.java:352-356 | the name and extra cut or padded to 15 characters, a blank, the description, and the mandatory note for mandatory entries |
| Parms.HelpLineRoundTrip | src/com/psec/util/Parm.java:352-356 | the description reads back from a help line, and so does a short blank-free name |
| Parms.PrintHelp | src/com/psec/util/Parm.java:348-359 | a title line, then one help line per entry, in table order |
| ReadExcel.MakeTokenArray | src/com/psec/excel/ReadExcelFile.java:317-339 | no tokens for the empty text; otherwise one more token than delimiters, none holding a delimiter, and joining them gives the text back |
| ReadExcel.CountTokens | src/com/psec/excel/ReadExcelFile.java:318-326 | the first loop counts one more than the delimiters |
| ReadExcel.FillTokens | src/com/psec/excel/ReadExcelFile.java:327-338 | the second loop fills the pieces between delimiters and the tail |
| ReadExcel.TrailingDelimiterGivesEmpty | src/com/psec/excel/ReadExcelFile.java:336-337 | a text ending in the delimiter ends with an empty token |
| ReadExcel.DigitRun | src/com/psec/excel/ReadExcelFile.java:289 | the longest run of leading digits |
| ReadExcel.ParseColToken | src/com/psec/excel/ReadExcelFile.java:296-307 | an identifier maps to its own position. Any other token parses exactly when it is `digits=name` with a one-line name and digits that fit an `int`, and then maps to the digits' value |
| ReadExcel.ColTokenOfDigits | src/com/psec/excel/ReadExcelFile.java:301-306 | any digit run, leading zeros included, then `=` and a name maps the column `parseInt` reads: "01=ab" maps column 1 |
| ReadExcel.ParseColTokens | src/com/psec/excel/ReadExcelFile.java:292-311 | one column map per token, each at its own position; it fails exactly when some token does |
| ReadExcel.ColMapOf | src/com/psec/excel/ReadExcelFile.java:286-312 | one column map per `;` token of the specification |
| ReadExcel.ColTokenOfField | src/com/psec/excel/ReadExcelFile.java:301-306 | `n=name` maps column `n` to the name |
| ReadExcel.ColTokenRoundTrip | src/com/psec/excel/ReadExcelFile.java:296-307 | a column map written as a token parses back to itself |
| ReadExcel.ColMapRoundTrip | src/com/psec/excel/ReadExcelFile.java:286-312 | a writable list of column maps, joined with `;`, parses back to itself |
| ReadExcel.Unquote | src/com/psec/excel/ReadExcelFile.java:511-512 | strips every leading and trailing `"`; what is left starts and ends with something else |
| ReadExcel.Dequote | src/com/psec/excel/ReadExcelFile.java:509-516 | the result, when there is one, is non-empty and trimmed |
| ReadExcel.DequoteWithin | src/com/psec/excel/ReadExcelFile.java:509-516 | the result is a contiguous part of the input |
| ReadExcel.UnquoteQuoted | src/com/psec/excel/ReadExcelFile.java:511-512 | any number of quotes around a quote-free-ended text strip back to it |
| ReadExcel.DequoteQuoted | src/com/psec/excel/ReadExcelFile.java:509-516 | a trimmed text inside any number of quotes dequotes to itself |

## Left out

- POI itself is not modelled. Workbooks, sheets, rows, cells, fonts and
  `CellStyle` objects become the `Layout.Op` writes and `Writer.Emitted`
  effects. POI's own range checks (row and column limits, style count) and
  the file output are out.
- WriteArea: the `setColumnWidth` call throws above 255*256. Any
  last-header column whose widest text is over 233 characters triggers it
  (234 × 280 = 65520 > 65280). The layout emits `Width` and `Put` at any int
  position and width.
- HeaderWidth: multiplies the text length by 320 or 280 in unbounded
  integers. Java's `nMaxStr*nWidthMult` is 32-bit, though it cannot
  overflow at any length below the POI limit above.
- WriteArea: the widest column comes from this area's own cell writes.
  Java takes `getLastCellNum()` of the shared sheet rows (WriteExcel.java
  lines 2001 and 2035), which also counts cells that other areas left on
  those rows.
- MaxCol: the same; only this layout's writes are counted.
- FilterLine: the area's widest column is taken as given, so the same
  difference reaches `addDataFilterLine`.
- AddRow: rows are copied values. Java's `addRow(String[])` stores the
  caller's array, so a caller that reuses one array for several rows, or
  changes it afterwards, sees all of them change. The model keeps each row
  as it was added.
- ZapColText: replaces a cell of the model's own copy of the row. Java
  writes into the caller's array, so rows that share it all change.
- ColorOf: a colour name gives `Ok(Named(name))`. Java upper-cases it,
  replaces `-` by `_` and calls `IndexedColors.valueOf`, which throws
  `IllegalArgumentException` for an unknown name; a name with no RGB in
  the palette leaves the colour unset (WriteExcel.java lines 1601-1609).
  The palette is POI's and is not part of this model.
- CreateDataFormat: the rule's pattern is kept as text.
  `Pattern.compile` (line 1369) can throw `PatternSyntaxException`, and
  that exception is not modelled. Matching a user pattern is the
  `find(regex, text)` parameter.
- Lengths are counted in `char`s of a Dafny string. Java's `length()`,
  used by `calcDimensions` and by `Parm`'s prefixes and help padding,
  counts UTF-16 code units, so a character outside the Basic
  Multilingual Plane counts twice there.
- ColMapOf: `makeColMap` also looks each name up with `getField`
  reflection on the record class and throws when the field is missing.
  Reflection is not modelled; a parsed name is accepted.
- Logging (`log(...)`, duplicate-style and contaminant warnings) is not
  modelled. `Parms.CheckParms` records its one printed line as data.
- After an `Err` the model returns only the error. What Java had already
  done to the workbook, to the style registry or to an area before
  throwing is not kept.
- `Parm`'s setters (`PS.set`) become `Setting` records. `mainStart`'s
  help flag, `System.exit` codes, `emitResultsBrief` (Gson) and `run` are
  out; `Parms.Parse` models only the process-then-check order.
- IsTrueOfAdded: `toUpperCase()` is applied to the first character only,
  not locale-sensitively to the whole string, which decides the same for
  every value whose first character is an ASCII letter.
- Floating point is not modelled. A decimal rule checks that the stripped
  text is valid for `parseDouble` and stores it as text, and the point
  size is kept as text (`new Double(..).shortValue()` is out).
- PerformStyleMerge: the `CE(name)` exit is recorded on the realized
  style; what `customExit` does to the POI style is not modelled. The font
  colour is the attributes' colour; whether POI receives it as an indexed
  colour or as an `XSSFColor` (lines 1470-1475) is not distinguished.
- `makeIndexLink`, `makeUrlLink` and `makeFileLink` are not modelled.
  No member builds `makeIndexLink`'s addresses; its first link points at
  the target sheet at the index cell's own position (WriteExcel.java
  lines 1055-1056). The model builds only the document addresses of
  `makeStdLink` and `makeUniLink`. `Links.ColumnName` and `Links.CellRef`
  model POI's `CellAddress` form itself, which those addresses should
  agree with. The link cells, their styles and the hyperlink objects are
  out.
- ColWidth: a null or missing sheet name is not modelled; the area always
  names its sheet.
- AsWrittenColumns: a `fuel` bound stands for "the loop has not finished
  within that many steps"; `AsWrittenColumnsNeverEnd` holds for every
  bound.
- Reading workbooks in `ReadExcelFile` (cell values, record filling,
  SQL output) is out; only the token, column-map and `dequote` helpers
  are modelled.
- `clone`, comments, sheet ordering, auto-filter objects and the other
  POI calls around the modelled logic are out.

## Findings

| source | as written | input that shows it | evidently intended | confidence | as-written member | corrected member |
|---|---|---|---|---|---|---|
| src/com/psec/excel/WriteExcel.java:1107 | the column letter comes from `"ABCDEFGHIJKLMNOPQRSTUVXYZ"`, a 25-letter table without W (also at lines 1112, 1177 and 1179) | target column 22 gives an address in column X; column 25 throws `StringIndexOutOfBoundsException` | the column's name, as `CellAddress` writes it (line 1056): W for 22, Z for 25, AA from 26 on | not executed | Links.AsWrittenSkipsW | Links.AsWrittenAgrees |
| src/com/psec/excel/WriteExcel.java:298-303 | `for (int i = n1st; i <= nLast; i++)` on `int` | `colWidth(0, Integer.MAX_VALUE, 10)`: `i` wraps from `Integer.MAX_VALUE` to `Integer.MIN_VALUE`, the loop never ends, and it sets widths for every non-negative column over and over | set the width of each column from `n1st` to `nLast` once, in order | not executed | Areas.AsWrittenColumnsNeverEnd | Areas.ColWidthsInOrder |
