# freedevtoolkit tool pages in Dafny

This project models the browser tool pages of freedevtoolkit. Each page wraps a small
text or number transformation in React state:

- converters: CSV to JSON, CSV to XML, JSON to XML, XML to JSON, text case, HTML entities;
- codecs: Base64, URL encoding, JWT, number bases, hash rendering;
- other pages: the word counter, the epoch converter, the age calculator, the text diff
  checker and the typing practice page.

Each page is one module. A page whose handlers update state step by step and read
that state back is a `class Page`. Its fields are the page's `useState` variables and
its methods are the handlers. A page made of expressions is a set of functions, plus
lemmas about them.

The browser primitives the pages call are modelled once, in shared modules:

- `JsString`: `trim`, `split`, `join`, `replace`, UTF-16 length.
- `JsNumber`: `parseInt` and `Number.prototype.toString(radix)`.
- `Utf8`: UTF-8 as in section 3 of RFC 3629.
- `Base64`: `btoa`/`atob` as Base64 with padding, section 4 of RFC 4648.
- `UriCodec`: `encodeURIComponent`, `decodeURIComponent`, `escape` and `unescape`, after
  section 19.2.6 of ECMA-262.
- `XmlEscape`: the five-entity escape of section 4.6 of XML 1.0.
- `Json`: JSON values and objects, as ordered key/value lists.

Foreign engines are parameters of the operations that use them:

- `JSON.parse` and `JSON.stringify`;
- `DOMParser`, represented by the node tree it produces;
- the `diff` library, represented by its list of changes;
- `crypto.subtle.digest` and the MD5 library;
- the `Date` parser, its calendar fields and its formatters;
- `toLocaleString`;
- `Math.random`.

Strings are sequences of Unicode scalar values. Every `length`, `charCodeAt` or index
in the pages is modelled on the UTF-16 code units of the text (`JsString.Utf16Units`),
with one exception: the JSON-to-XML page's `for ... in` over a string is modelled one
character at a time (see "## Left out").

## Model

| member | source | states |
|---|---|---|
| AgeCalculator.BreakdownAsWritten | pages/tools/age-calculator.tsx:26-41 | The page's span: days are the day difference, and when negative one month is borrowed and the previous month's length added, once; then months below zero borrow a year. `Borrow` computes it and `NegativeDaysAsWritten`, `AsWrittenAgrees` and `BreakdownAsWrittenBounds` state its properties |
| AgeCalculator.AgeText | pages/tools/age-calculator.tsx:13-60 | An unparseable date or an end before the start gives "Invalid date range"; otherwise the seven unit lines of the page's span and the millisecond difference, joined by "\n" (`SevenLines`, `UnitChain`) |
| AgeCalculator.DaysInMonth | pages/tools/age-calculator.tsx:33-34 | A Gregorian month has 28 to 31 days |
| AgeCalculator.PrevMonthLength | pages/tools/age-calculator.tsx:33-34 | Day 0 of the end's month is the last day of the month before, 28 to 31 |
| AgeCalculator.NegativeDaysAsWritten | pages/tools/age-calculator.tsx:28-35 | As written, 31 January to 1 March 2023 gives 0 years, 1 month and -2 days, and to 28 February 0 months and 28 days; the corrected span gives 1 day and 1 month 0 days |
| AgeCalculator.AsWrittenAgrees | pages/tools/age-calculator.tsx:28-35 | For a start day that both the end's month and the month before it have, the page's span is the corrected one |
| AgeCalculator.BreakdownAsWrittenBounds | pages/tools/age-calculator.tsx:26-41 | As written, a start no later than the end gives years >= 0 and months in 0..11 |
| AgeCalculator.BreakdownBounds | pages/tools/age-calculator.tsx:26-41 | The corrected span has years >= 0, months in 0..11 and days in 0..30 |
| AgeCalculator.BreakdownExact | pages/tools/age-calculator.tsx:26-41 | The corrected span's months are the most whole months from the start that fit before the end, and its days are the exact remainder |
| AgeCalculator.UnitChain | pages/tools/age-calculator.tsx:44-49 | Each successive floor division equals diffMs divided by the unit's length; weeks * 7 + days mod 7 is the days |
| AgeCalculator.SevenLines | pages/tools/age-calculator.tsx:52-60 | The result splits on "\n" into exactly the seven unit lines |
| AgeCalculator.Borrow | pages/tools/age-calculator.tsx:24-41 | The page's borrow steps compute its span, with months in 0..11 and, for a start no later than the end, years >= 0 |
| AgeCalculator.Page.constructor | pages/tools/age-calculator.tsx:9-11 | Both dates are empty and there is no result |
| AgeCalculator.Page.CalculateAge | pages/tools/age-calculator.tsx:13-63 | A missing date changes nothing; an invalid date or an end before the start gives "Invalid date range"; otherwise the seven-line text of the page's single-borrow span |
| AgeCalculator.Page.Reset | pages/tools/age-calculator.tsx:65-69 | Both dates are cleared and the result removed |
| Base64.Encode | pages/tools/base64-encoder-decoder.tsx:18 | `btoa` of a binary string: the unpadded groups, then "=" padding; `EncodeShape`, `PaddedLength` and `DecodeEncode` state its shape and inverse |
| Base64.Decode | pages/tools/base64-encoder-decoder.tsx:20 | `atob` as forgiving-base64: ASCII white space removed, then one or two trailing "=" stripped from a length that is a multiple of 4, then failure for a length of 1 mod 4 or a character outside the alphabet, otherwise the decoded groups (`DecodeRejects`, `DecodeUnpadded`, `DecodeEncode`) |
| Base64.GroupRoundTrip | pages/tools/base64-encoder-decoder.tsx:18-20 | One group of 1 to 3 bytes encodes into alphabet characters that decode back to the group |
| Base64.DecodeEncode | pages/tools/base64-encoder-decoder.tsx:18-20 | `atob(btoa(x))` is `x` for every binary string |
| Base64.EncodeShape | pages/tools/base64-encoder-decoder.tsx:18 | The encoding has 4 * ceil(n / 3) characters, all from the alphabet except "=" padding in the last two places |
| Base64.PaddedLength | pages/tools/base64-encoder-decoder.tsx:18 | The unpadded length is 0, 2 or 3 modulo 4 as n mod 3 is 0, 1 or 2, and the padding completes it to a multiple of 4 |
| Base64.GroupsLengthValue | pages/tools/base64-encoder-decoder.tsx:18 | The unpadded length is n + ceil(n / 3) and the padded length 4 * ceil(n / 3) |
| Base64.DecodeRejects | pages/tools/base64-encoder-decoder.tsx:20 | A character that is not white space, "=" or in the alphabet makes decoding fail |
| Base64.DecodeUnpadded | pages/tools/base64-encoder-decoder.tsx:20 | Alphabet-only text with a length not 1 mod 4 decodes without padding |
| Base64.DecodeGroupsEncodeGroups | pages/tools/base64-encoder-decoder.tsx:18-20 | The unpadded groups are alphabet characters, never of length 1 mod 4, and decode back to the bytes |
| Base64Tool.Convert | pages/tools/base64-encoder-decoder.tsx:16-21 | The `try` block: `btoa(unescape(encodeURIComponent(input)))` in encode mode and `decodeURIComponent(escape(atob(input)))` in decode mode, with `None` for an exception (`EncodeIsBase64OfUtf8`, `DecodeIsUtf8OfBase64`, `RoundTrip`) |
| Base64Tool.HandleConvert | pages/tools/base64-encoder-decoder.tsx:14-28 | A successful conversion shows its result with no error; otherwise the output is empty and the mode's error text shows |
| Base64Tool.EncodeIsBase64OfUtf8 | pages/tools/base64-encoder-decoder.tsx:18 | Encoding is Base64 of the UTF-8 bytes of the input, with no error |
| Base64Tool.DecodeIsUtf8OfBase64 | pages/tools/base64-encoder-decoder.tsx:20 | Decoding is Base64 decoding followed by UTF-8 decoding; it fails when either fails |
| Base64Tool.RoundTrip | pages/tools/base64-encoder-decoder.tsx:18-20 | Decoding the encoded text gives the text back without error |
| Base64Tool.EncodedShape | pages/tools/base64-encoder-decoder.tsx:18 | The output has 4 * ceil(n / 3) characters for n UTF-8 bytes, from the alphabet and "=" |
| Base64Tool.DecodeError | pages/tools/base64-encoder-decoder.tsx:20-26 | The decode error with an empty output shows exactly when the input is not Base64 or its bytes are not UTF-8 |
| CsvToJson.Records | pages/tools/csv-to-json.tsx:15-25 | One record per line after the first of the trimmed input, each built from the header line's fields and the line's fields (`RecordKeys`, `RecordLookup`, `HeaderOnly`) |
| CsvToJson.BuildRecord | pages/tools/csv-to-json.tsx:20-23 | The header loop builds the record of the line |
| CsvToJson.ParseCsvToJson | pages/tools/csv-to-json.tsx:15-25 | The records of the data lines, one per line after the first |
| CsvToJson.RecordKeys | pages/tools/csv-to-json.tsx:16-22 | A record's keys are the trimmed headers, each once, in the order first seen |
| CsvToJson.RecordLookup | pages/tools/csv-to-json.tsx:21-22 | Under a header's key is the trimmed field of the last column with that header |
| CsvToJson.RecordIgnoresExtra | pages/tools/csv-to-json.tsx:21-22 | Fields past the last header do not change the record |
| CsvToJson.ShortLinePadded | pages/tools/csv-to-json.tsx:22 | A header with no field on a short line gets "" |
| CsvToJson.HeaderOnly | pages/tools/csv-to-json.tsx:15-18 | Trimmed input of one line gives no records |
| CsvToJson.NoCommaInKeys | pages/tools/csv-to-json.tsx:16-22 | No key of a record contains a comma |
| CsvToJson.NoCommaInValues | pages/tools/csv-to-json.tsx:19-22 | Every value of every record is a string without a comma |
| CsvToJson.Page.constructor | pages/tools/csv-to-json.tsx:9-11 | Input, output and error are empty |
| CsvToJson.Page.Convert | pages/tools/csv-to-json.tsx:30-40 | Blank input gives "Invalid CSV format" and an empty output; otherwise the stringified records and no error |
| CsvToJson.Page.Reset | pages/tools/csv-to-json.tsx:42-47 | Input, output and error are cleared |
| Json.LookupPut | pages/tools/csv-to-json.tsx:22 | After `obj[k] = v`, reading k gives v and every other key is unchanged |
| Json.PutPut | pages/tools/csv-to-json.tsx:22 | A second assignment to the same key overwrites the first |
| Json.KeysPut | pages/tools/xml-to-json.tsx:50 | An assigned key that is present keeps its place; a new key goes last |
| Json.PutDistinct | pages/tools/xml-to-json.tsx:50 | Assignment keeps the keys distinct |
| Json.LookupFound | pages/tools/xml-to-json.tsx:68 | A key is found exactly when it is present |
| CsvToXml.ParseCsvToXml | pages/tools/csv-to-xml.tsx:21-41 | `None` for fewer than two lines or a data row with more cells than the header, which is where `headers[idx].trim()` throws; otherwise the `<root>` document of `<row>` blocks (`ParseSucceeds`, `OutputLines`, `CellLineContent`) |
| CsvToXml.HandleConvert | pages/tools/csv-to-xml.tsx:43-52 | A successful conversion shows the XML with no error; otherwise the output is empty and "Invalid CSV format" shows |
| CsvToXml.ParseSucceeds | pages/tools/csv-to-xml.tsx:27-33 | The conversion succeeds exactly when there are at least two lines and no data line has more cells than the header line |
| CsvToXml.SingleLineFails | pages/tools/csv-to-xml.tsx:22-28 | Trimmed input without a line break, the empty input included, is the error with an empty output |
| CsvToXml.RowBlocksSpec | pages/tools/csv-to-xml.tsx:31-38 | The row elements exist exactly when no line is too long; then there is one per data line, each the `<row>` lines around its cell lines |
| CsvToXml.OutputLines | pages/tools/csv-to-xml.tsx:31-40 | The output is "<root>", then each row's "  <row>", cell lines and "  </row>", then "</root>", joined by "\n" |
| CsvToXml.DocumentLines | pages/tools/csv-to-xml.tsx:37-40 | With no line break in headers and cells, the document read line by line is exactly those lines |
| CsvToXml.CellsAt | pages/tools/csv-to-xml.tsx:32-36 | Each cell of a row gives one line, tagged with the header at the same position |
| CsvToXml.CellLineContent | pages/tools/csv-to-xml.tsx:33-35 | A cell line is the trimmed header as tag around escaped text that unescapes to the trimmed cell |
| XmlEscape.EscapeXml | pages/tools/csv-to-xml.tsx:13-19 | The five `replace` calls in the page's order, `&` first; `EscapeXmlIsEscapeEach` proves it per-character and `UnescapeEscapeXml` its inverse |
| XmlEscape.EscapeXmlIsEscapeEach | pages/tools/csv-to-xml.tsx:13-19 | The chain of five replacements is the character-by-character substitution |
| XmlEscape.EscapeXmlChar | pages/tools/csv-to-xml.tsx:15-19 | On one character the chain gives exactly that character's entity, or the character |
| XmlEscape.EscapeXmlAppend | pages/tools/csv-to-xml.tsx:13-19 | The escape distributes over concatenation |
| XmlEscape.UnescapeEscapeXml | pages/tools/json-to-xml.tsx:55-62 | Unescaping the escaped text gives the text back |
| XmlEscape.EscapeXmlIsSafe | pages/tools/csv-to-xml.tsx:13-19 | Escaped text has no < > " ' and every & starts one of the five entities |
| XmlEscape.EscapeXmlKeeps | pages/tools/csv-to-xml.tsx:13-19 | The escape adds no character except those that spell the entities |
| JsonToXml.Lines | pages/tools/json-to-xml.tsx:31-53 | The lines `jsonToXml(v, indent)` emits, key by key of its for-in, as `KeyXml` gives each; `LinesNest`, `OutputBalanced` and `TopElement` state their structure |
| JsonToXml.LineText | pages/tools/json-to-xml.tsx:37-48 | Every emitted line ends in "\n" |
| JsonToXml.JsonToXml | pages/tools/json-to-xml.tsx:31-53 | The loop accumulates the text of the value's lines |
| JsonToXml.KeyXml | pages/tools/json-to-xml.tsx:35-49 | The loop body adds the lines of one key: one element per array item, one element around a nested object, or one leaf line |
| JsonToXml.LinesNest | pages/tools/json-to-xml.tsx:37-48 | Every opening line is closed by a line with the same key at the same indent |
| JsonToXml.OutputBalanced | pages/tools/json-to-xml.tsx:37-48 | The whole output is balanced |
| JsonToXml.LinesIndented | pages/tools/json-to-xml.tsx:37-46 | No emitted line is indented less than the indent it was rendered at |
| JsonToXml.TopElement | pages/tools/json-to-xml.tsx:35-48 | At its own indent a key emits one open/close pair per array item, one pair for an object, or one leaf line |
| JsonToXml.NoKeysNoLines | pages/tools/json-to-xml.tsx:34-36 | Numbers, booleans and null have no keys and emit nothing |
| JsonToXml.PrimitiveItem | pages/tools/json-to-xml.tsx:36-40 | A number, boolean or null array item emits an empty open/close pair |
| JsonToXml.StringLines | pages/tools/json-to-xml.tsx:34-48 | A string emits one leaf line per character, keyed by its index |
| JsonToXml.StringLinesUnits | pages/tools/json-to-xml.tsx:34-48 | For text without characters above U+FFFF, there is one line per UTF-16 code unit, and line i is keyed i and holds code unit i, as the page's walk gives it |
| JsonToXml.Page.constructor | pages/tools/json-to-xml.tsx:9-11 | Input, output and error are empty |
| JsonToXml.Page.Convert | pages/tools/json-to-xml.tsx:13-23 | Unparseable trimmed input gives "Invalid JSON format." and an empty output; otherwise the rendering and no error |
| JsonToXml.Page.Reset | pages/tools/json-to-xml.tsx:25-29 | Input, output and error are cleared |
| XmlToJson.JsonOf | pages/tools/xml-to-json.tsx:38-79 | Text gives its trimmed value or null; an element with one kept child that is text gives that text; otherwise the object of its attributes followed by its kept children, a repeated name grouped into an array (`XmlToJson` computes it; `Grouping`, `SingleTextChild`, `AttributesFirst` state it) |
| XmlToJson.XmlToJson | pages/tools/xml-to-json.tsx:38-79 | The attribute loop, the filter, the single-text shortcut and the child loop compute the node's JSON value |
| XmlToJson.AddChildren | pages/tools/xml-to-json.tsx:62-76 | The child loop adds every kept child in document order |
| XmlToJson.AssignAttributes | pages/tools/xml-to-json.tsx:47-52 | The attribute loop assigns every attribute as a string |
| XmlToJson.AddChildInPlace | pages/tools/xml-to-json.tsx:66-75 | One turn of the loop: an empty value is skipped, a truthy entry becomes or grows an array, anything else is set |
| XmlToJson.GroupInPlace | pages/tools/xml-to-json.tsx:68-72 | Converting the entry to an array in place and then pushing gives the entry's values followed by the new one |
| XmlToJson.TextValue | pages/tools/xml-to-json.tsx:39-42 | A text node gives its trimmed text, or null when it is all white space |
| XmlToJson.KeptChild | pages/tools/xml-to-json.tsx:54-56 | A kept child is one of the children and is not blank text |
| XmlToJson.KeptValue | pages/tools/xml-to-json.tsx:54-66 | A kept child converts to a non-empty string or an object, never null or "" |
| XmlToJson.BlankChildIgnored | pages/tools/xml-to-json.tsx:54-56 | A blank text child anywhere among the children changes nothing |
| XmlToJson.SingleTextChild | pages/tools/xml-to-json.tsx:58-60 | An element whose only kept child is text becomes that non-empty trimmed text, whatever its attributes |
| XmlToJson.AttributesFirst | pages/tools/xml-to-json.tsx:47-52 | The attribute keys come first, in their order, in the object at every step of the child loop |
| XmlToJson.AttributeLookup | pages/tools/xml-to-json.tsx:49-51 | Distinct attributes each keep their own value |
| XmlToJson.Grouping | pages/tools/xml-to-json.tsx:68-75 | The value under a key is its attribute, if any, grouped with the values of the children of that name in document order |
| XmlToJson.ChildrenSameKept | pages/tools/xml-to-json.tsx:54-76 | Conversion depends on the children only through the kept ones |
| XmlToJson.Page.constructor | pages/tools/xml-to-json.tsx:9-11 | Input, output and error are empty |
| XmlToJson.Page.Convert | pages/tools/xml-to-json.tsx:13-30 | A document with a parser error gives "Invalid XML format." and an empty output; otherwise the stringified value and no error |
| XmlToJson.Page.Reset | pages/tools/xml-to-json.tsx:32-36 | Input, output and error are cleared |
| TextCase.ConvertText | pages/tools/text-case-converter.tsx:23-52 | The seven styles: lower and upper case of the whole text, and camel, Pascal, snake, kebab and constant case built from the word list; `NoWhiteSpaceOutputs`, `KebabIsSnakeReplaced`, `CamelPascal` and the idempotence lemmas state its properties |
| TextCase.SpaceDashesFree | pages/tools/text-case-converter.tsx:25 | Replacing the `_`/`-` runs leaves no `_` or `-` |
| TextCase.SplitCamelKeeps | pages/tools/text-case-converter.tsx:26 | Splitting camel case adds nothing but spaces |
| TextCase.WordsShape | pages/tools/text-case-converter.tsx:23-28 | Every word is free of white space, `_`, `-` and upper case, and only the first and last can be empty |
| TextCase.NoWhiteSpaceOutputs | pages/tools/text-case-converter.tsx:35-52 | camel, Pascal, snake, kebab and CONSTANT output contains no white space |
| TextCase.WholeTextStyles | pages/tools/text-case-converter.tsx:31-34 | lowercase and UPPERCASE map the whole original text character by character, keeping its length |
| TextCase.ConstantIsUpperSnake | pages/tools/text-case-converter.tsx:51-52 | CONSTANT_CASE is snake_case upper-cased; this records the definition |
| TextCase.KebabIsSnakeReplaced | pages/tools/text-case-converter.tsx:47-50 | kebab-case is snake_case with every `_` turned into `-` |
| TextCase.CamelPascal | pages/tools/text-case-converter.tsx:35-46 | PascalCase is camelCase with its first character upper-cased |
| TextCase.SpaceDashesJoin | pages/tools/text-case-converter.tsx:25 | Dash-free words joined by one dash get a space in place of each dash |
| TextCase.SplitCamelJoin | pages/tools/text-case-converter.tsx:26 | Words without a lower-to-upper boundary, joined by spaces, are left alone |
| TextCase.WordsOfJoined | pages/tools/text-case-converter.tsx:23-28 | The word list of words joined by `_` or `-` is those words lower-cased |
| TextCase.SnakeWords | pages/tools/text-case-converter.tsx:23-48 | snake_case output has the same words as its input, so snake_case is idempotent |
| TextCase.KebabWords | pages/tools/text-case-converter.tsx:23-50 | kebab-case output has the same words as its input, so kebab-case is idempotent |
| TextCase.ConstantWords | pages/tools/text-case-converter.tsx:23-52 | CONSTANT_CASE output has the same words as its input, so CONSTANT_CASE is idempotent |
| WordCounter.WordCount | pages/tools/string-word-counter.tsx:13 | The number of fields of the white-space split of the trimmed text, or 0 for blank text; `WordCountIsRuns` equates it with the number of non-white-space runs |
| WordCounter.CharCountWithSpaces | pages/tools/string-word-counter.tsx:14 | `text.length`, the number of UTF-16 code units (`CountsOrdered`) |
| WordCounter.CharCountWithoutSpaces | pages/tools/string-word-counter.tsx:15 | The UTF-16 length after removing every white-space character (`RemoveWhiteSpaceKeeps`, `CountsOrdered`) |
| WordCounter.WordCountIsRuns | pages/tools/string-word-counter.tsx:13 | The word count is the number of maximal runs of non-white-space characters |
| WordCounter.BlankHasNoWords | pages/tools/string-word-counter.tsx:13 | The count is 0 exactly for blank text |
| WordCounter.WordsJoined | pages/tools/string-word-counter.tsx:13 | Non-empty words joined by spaces are counted one each |
| WordCounter.SplitRuns | pages/tools/string-word-counter.tsx:13 | For text that starts with a word, the white-space split has one field per run, plus one empty field after trailing white space |
| WordCounter.RunsTrim | pages/tools/string-word-counter.tsx:13 | Trimming keeps every run |
| WordCounter.RemoveWhiteSpaceKeeps | pages/tools/string-word-counter.tsx:15 | Removing white space keeps exactly the other characters |
| WordCounter.CountsOrdered | pages/tools/string-word-counter.tsx:13-15 | Words <= characters without spaces <= characters with spaces |
| HtmlEntities.EncodeHtmlEntities | pages/tools/html-entities.tsx:8-13 | Every matched character becomes `&#` and its decimal code unit and `;`, and every other character is kept; `DecodeEncode` and `EncodedIsSafe` state its inverse and output |
| HtmlEntities.DecodeEncode | pages/tools/html-entities.tsx:8-13 | Reading the numeric references back gives the original text |
| HtmlEntities.ReferenceShape | pages/tools/html-entities.tsx:11 | A reference is "&#", decimal digits and ";", and none of its characters after the first is matched |
| HtmlEntities.EncodedIsSafe | pages/tools/html-entities.tsx:9-12 | The output has no < > " ' or backquote, no unit of U+00A0..U+9999, and every & starts a reference |
| HtmlEntities.EncodeUnchanged | pages/tools/html-entities.tsx:9-12 | Text with no matched character is left as it is |
| HtmlEntities.EncodeAppend | pages/tools/html-entities.tsx:9-12 | The encoder works character by character, distributing over concatenation |
| HtmlEntities.EncodeLength | pages/tools/html-entities.tsx:9-12 | The output is never shorter in code units, and is as long exactly when no character is matched |
| TypingPractice.Feedback | pages/fun/typing-practice.tsx:49-60 | One status per code unit of the target: pending past the typed text, correct where the typed code unit matches and wrong elsewhere (`Classification`, `PendingCount`) |
| TypingPractice.Classification | pages/fun/typing-practice.tsx:49-60 | One status per target code unit: pending exactly past the typed length, otherwise correct exactly when the typed unit matches, wrong otherwise |
| TypingPractice.PendingCount | pages/fun/typing-practice.tsx:50-57 | The pending count is max(0, target length - typed length), and the three counts add up to the target length |
| TypingPractice.TypedTarget | pages/fun/typing-practice.tsx:53-60 | Typing the target, with anything after it, makes every position correct |
| TypingPractice.NothingTyped | pages/fun/typing-practice.tsx:54-57 | Nothing typed makes every position pending |
| TypingPractice.SampleIndex | pages/fun/typing-practice.tsx:24-26 | The random draw indexes one of the sample sentences |
| TypingPractice.Mount | pages/fun/typing-practice.tsx:32-34 | Mounting draws a sentence and keeps the typed text |
| TypingPractice.Type | pages/fun/typing-practice.tsx:36-38 | Typing replaces the typed text and keeps the target |
| TypingPractice.Reset | pages/fun/typing-practice.tsx:45-47 | Reset clears the typed text, keeps the target, and every position is pending |
| TypingPractice.Next | pages/fun/typing-practice.tsx:40-43 | Next clears the typed text, draws a sentence, and every position is pending |
| JwtDecoder.DecodeSegments | pages/tools/jwt-decoder.tsx:19-23 | `atob` of the header, then of the payload, then `JSON.parse` of each, the first failure giving its message (`FirstFailureWins`, `UrlHeaderRejected`) |
| JwtDecoder.Decode | pages/tools/jwt-decoder.tsx:15-23 | The format error unless the token splits on "." into three parts; otherwise the decoding of parts 0 and 1 (`FormatChecked`, `SignatureIgnored`, `SuccessReadsSegments`) |
| JwtDecoder.ErrorText | pages/tools/jwt-decoder.tsx:26 | The error line is the message, or "Error decoding JWT" when there is none; never empty |
| JwtDecoder.UrlCharacterRejectedAsWritten | pages/tools/jwt-decoder.tsx:19-20 | As written, `atob` rejects every segment that holds "-" or "_" |
| JwtDecoder.UrlSegmentExample | pages/tools/jwt-decoder.tsx:19-20 | The bytes FB FF, written "-_8" in a token, are rejected by the page and read back by the URL-safe decoder |
| JwtDecoder.SegmentRoundTrip | pages/tools/jwt-decoder.tsx:19-20 | The URL-safe decoder reads back every byte sequence written as an unpadded URL-safe segment |
| JwtDecoder.UrlHeaderRejected | pages/tools/jwt-decoder.tsx:19-20 | A header segment that holds "-" or "_" fails with the error of `atob`, whatever the payload |
| JwtDecoder.UrlPayloadRejected | pages/tools/jwt-decoder.tsx:19-20 | So does a payload segment that holds "-" or "_" |
| JwtDecoder.FormatChecked | pages/tools/jwt-decoder.tsx:16-17 | A token without exactly two dots does not split into three parts and gives "Invalid JWT format" |
| JwtDecoder.SignatureIgnored | pages/tools/jwt-decoder.tsx:16-23 | Only the first two parts are decoded; the signature never matters |
| JwtDecoder.SuccessReadsSegments | pages/tools/jwt-decoder.tsx:19-23 | On success the header is parsed from part 0 and the payload from part 1 |
| JwtDecoder.FirstFailureWins | pages/tools/jwt-decoder.tsx:19-26 | A failure is the error of the first failing step |
| JwtDecoder.Page.constructor | pages/tools/jwt-decoder.tsx:9-12 | Token, header, payload and error are empty |
| JwtDecoder.Page.Fail | pages/tools/jwt-decoder.tsx:25-28 | The error is set and both panes are cleared |
| JwtDecoder.Page.DecodeJwt | pages/tools/jwt-decoder.tsx:14-30 | The segments are decoded with `atob`; on success both panes show the stringified values and the error is cleared; any failure sets the error and clears both panes |
| JwtDecoder.Page.Reset | pages/tools/jwt-decoder.tsx:32-37 | Token, header, payload and error are cleared |
| JwtDecoder.Page.LoadExample | pages/tools/jwt-decoder.tsx:43-49 | The example token is loaded and the panes are kept |
| UrlTool.Converted | pages/tools/url-encoder-decoder.tsx:18-28 | `encodeURIComponent` in encode mode; in decode mode `decodeURIComponent`, or "❌ Invalid input for decoding." when it throws (`RoundTrip`, `MalformedEscape`) |
| UrlTool.RoundTrip | pages/tools/url-encoder-decoder.tsx:22-23 | Decoding the encoded text gives the text back |
| UrlTool.EncodeLength | pages/tools/url-encoder-decoder.tsx:22 | The output is never shorter, and is as long exactly when every character is unreserved |
| UrlTool.EncodeUnchanged | pages/tools/url-encoder-decoder.tsx:22 | The encoding leaves a text alone exactly when all its characters are unreserved |
| UrlTool.EncodeSpaces | pages/tools/url-encoder-decoder.tsx:22 | Unreserved characters and spaces encode with each space written "%20" |
| UrlTool.EncodeAlphabet | pages/tools/url-encoder-decoder.tsx:22 | The output uses only unreserved characters, "%" and hexadecimal digits |
| UrlTool.TokenizeWellEscaped | pages/tools/url-encoder-decoder.tsx:23 | The text cuts into tokens exactly when every "%" starts two hexadecimal digits |
| UrlTool.MalformedEscape | pages/tools/url-encoder-decoder.tsx:23-26 | A "%" that does not start an escape shows "❌ Invalid input for decoding." |
| UrlTool.Page.constructor | pages/tools/url-encoder-decoder.tsx:9-11 | Encode mode, empty input and output |
| UrlTool.Page.Toggle | pages/tools/url-encoder-decoder.tsx:13-16 | The mode flips, the output is cleared, the input is kept |
| UrlTool.Page.Convert | pages/tools/url-encoder-decoder.tsx:18-28 | The output is the converted input, or the error text when decoding fails |
| UrlTool.Page.Reset | pages/tools/url-encoder-decoder.tsx:30-33 | Input and output are cleared and the mode is kept |
| UrlTool.Page.LoadExample | pages/tools/url-encoder-decoder.tsx:35-42 | The mode's example is loaded and the output cleared |
| UriCodec.EncodeURIComponent | pages/tools/url-encoder-decoder.tsx:22 | Unreserved characters are kept, and every other character becomes its UTF-8 bytes as `%XX` (`EncodeURIComponentAlphabet`, `DecodeURIComponentEncode`) |
| UriCodec.DecodeURIComponent | pages/tools/url-encoder-decoder.tsx:23 | The `%XX` escapes read as UTF-8, failing on a malformed escape or invalid UTF-8 (`DecodeURIComponentEncode`, `DecodeURIComponentEscape`) |
| UriCodec.Escape | pages/tools/base64-encoder-decoder.tsx:20 | `escape` of a binary string: safe characters kept, every other one as `%XX` (`DecodeURIComponentEscape`) |
| UriCodec.Unescape | pages/tools/base64-encoder-decoder.tsx:18 | `unescape`: `%uXXXX` and `%XX` become the code unit they name, anything else its own code units (`UnescapeEncodeURIComponent`) |
| UriCodec.EncodeURIComponentAlphabet | pages/tools/url-encoder-decoder.tsx:22 | The output is unreserved characters and upper-case `%XX` escapes only |
| UriCodec.DecodeURIComponentEncode | pages/tools/url-encoder-decoder.tsx:22-23 | `decodeURIComponent(encodeURIComponent(s))` is s |
| UriCodec.AssembleStringTokens | pages/tools/url-encoder-decoder.tsx:22-23 | The tokens of an encoded text assemble back into the text |
| UriCodec.UnescapeEncodeURIComponent | pages/tools/base64-encoder-decoder.tsx:18 | `unescape(encodeURIComponent(s))` is the binary string of the UTF-8 bytes of s |
| UriCodec.DecodeURIComponentEscape | pages/tools/base64-encoder-decoder.tsx:20 | `decodeURIComponent(escape(b))` is the UTF-8 decoding of the bytes b, failing exactly when that fails |
| Utf8.DecodeSequenceEncodeChar | pages/tools/base64-encoder-decoder.tsx:18-20 | The bytes of one character are one well-shaped sequence that decodes back to it |
| Utf8.EncodeCharDecodeSequence | pages/tools/base64-encoder-decoder.tsx:18-20 | Every well-shaped sequence that decodes is the encoding of what it decodes to |
| Utf8.DecodeEncode | pages/tools/hash-generator.tsx:24-25 | Decoding the UTF-8 encoding of a string gives the string back |
| Utf8.EncodeDecode | pages/tools/base64-encoder-decoder.tsx:20 | A byte sequence that decodes is exactly the encoding of its decoding |
| JsNumber.ParseInt | pages/tools/number-base-converter.tsx:25 | `parseInt(s, radix)`: leading white space, an optional sign, a `0x` prefix in radix 16 or 0 (which means 10), then the longest run of digits of the radix, or NaN when there is none (`ParseIntNumberToString`, `ParseIntOfDigits`) |
| JsNumber.NumberToString | pages/tools/number-base-converter.tsx:30 | `n.toString(radix)`: a minus sign for a negative number and the digits of its magnitude (`NatToStringValue`, `ParseIntNumberToString`) |
| JsNumber.NatToStringValue | pages/tools/number-base-converter.tsx:30 | The printed digits denote the number, with no leading zero |
| JsNumber.ParseIntNumberToString | pages/tools/number-base-converter.tsx:25-30 | Printing an integer in a radix and parsing it back in that radix gives the integer |
| JsNumber.ParseIntUpperNumberToString | pages/tools/number-base-converter.tsx:25-30 | The same holds after upper-casing the printed digits |
| JsNumber.ParseIntOfDigits | pages/tools/number-base-converter.tsx:25 | A digit string with an optional minus sign parses to its value |
| JsString.TrimIsMiddle | pages/tools/csv-to-json.tsx:15 | Trimming keeps a contiguous middle part that begins and ends with a non-white-space character |
| JsString.TrimEmptyIff | pages/tools/csv-to-json.tsx:32 | The trimmed text is empty exactly when the text is all white space |
| JsString.SplitOnPieces | pages/tools/csv-to-json.tsx:15-16 | No piece of a split holds the separator, and there is one piece more than separators |
| JsString.JoinSplitOn | pages/tools/csv-to-xml.tsx:24-25 | Joining the pieces with the separator gives the text back |
| JsString.SplitOnJoin | pages/tools/age-calculator.tsx:52-60 | Splitting a join of separator-free pieces gives the pieces back |
| JsString.ReplaceAllRemoves | pages/tools/text-diff-checker.tsx:19-20 | After a global replacement whose text lacks the character, no occurrence is left and no other character changes |
| JsString.SplitOnWhiteSpaceJoin | pages/tools/text-case-converter.tsx:27 | Splitting words joined by single spaces on white space gives the words back |
| JsString.Utf16LengthAtLeast | pages/tools/string-word-counter.tsx:14 | A text has at least one code unit per character |
| NumberBase.Converted | pages/tools/number-base-converter.tsx:23-35 | The invalid-input text when `parseInt` gives NaN, the conversion error for a radix outside 2..36, otherwise the upper-cased `toString` (`ErrorIffNaN`, `ResultCanonical`, `RoundTrip`) |
| NumberBase.ErrorIffNaN | pages/tools/number-base-converter.tsx:25-34 | "❌ Invalid input for selected base" shows exactly when `parseInt` gives NaN; an offered base never gives the conversion error |
| NumberBase.ResultCanonical | pages/tools/number-base-converter.tsx:30 | The result is "-" for a negative value, then the upper-case digits of its magnitude in the target base, without leading zero |
| NumberBase.CanonicalResult | pages/tools/number-base-converter.tsx:30 | `n.toString(radix).toUpperCase()` is the canonical text of n for every radix 2..36 |
| NumberBase.RoundTrip | pages/tools/number-base-converter.tsx:25-30 | Converting a to b and the result back to a gives the canonical form in a |
| NumberBase.ParseReadsLeadingDigits | pages/tools/number-base-converter.tsx:25 | `parseInt` skips white space, reads an optional "+" or "-" sign and the longest run of digits of the base, and ignores the rest |
| NumberBase.Page.constructor | pages/tools/number-base-converter.tsx:9-12 | Empty input and result, from base 10, to base 2 |
| NumberBase.Page.SelectFromBase | pages/tools/number-base-converter.tsx:15-20 | Sets the from base to an offered base and nothing else, keeping both bases offered |
| NumberBase.Page.SelectToBase | pages/tools/number-base-converter.tsx:15-20 | Sets the to base to an offered base and nothing else, keeping both bases offered |
| NumberBase.Page.Convert | pages/tools/number-base-converter.tsx:23-35 | From a state whose bases are offered, the result is the conversion of the input and never the conversion error; the input and bases are kept, and so is `Valid()` |
| NumberBase.Page.Reset | pages/tools/number-base-converter.tsx:37-42 | Input "", from base 10, to base 2, result "" |
| HashGenerator.Hex | pages/tools/hash-generator.tsx:27-30 | Each digest byte as `toString(16).padStart(2, "0")`, joined (`HexShape`, `HexDecodeHex`) |
| HashGenerator.GenerateHash | pages/tools/hash-generator.tsx:13-33 | Empty for empty input, the MD5 library's text in MD5 mode, and the hex of the SHA-256 digest of the UTF-8 bytes otherwise (`Sha256Hash`) |
| HashGenerator.ByteHexDigits | pages/tools/hash-generator.tsx:29 | `b.toString(16).padStart(2, "0")` is two lower-case hexadecimal digits, high half first, whose value is b |
| HashGenerator.HexShape | pages/tools/hash-generator.tsx:27-30 | The rendering has two lower-case hexadecimal digits per byte |
| HashGenerator.HexDecodeHex | pages/tools/hash-generator.tsx:28-30 | Reading the rendering back gives the bytes |
| HashGenerator.HexInjective | pages/tools/hash-generator.tsx:28-30 | Different digests render differently |
| HashGenerator.Sha256Hash | pages/tools/hash-generator.tsx:23-31 | A SHA-256 hash is two digits per digest byte of the UTF-8 bytes of the text and reads back as that digest |
| HashGenerator.Generate | pages/tools/hash-generator.tsx:13-33 | The new hash is the `generateHash` text: empty for empty input, the MD5 library's text in MD5 mode, and in SHA-256 mode two digits per digest byte of the UTF-8 bytes, reading back as that digest; the input and algorithm are kept |
| HashGenerator.Reset | pages/tools/hash-generator.tsx:35-38 | Input and hash are cleared, the algorithm is kept |
| Epoch.ConvertedDate | pages/tools/epoch-to-date.tsx:26-36 | "Invalid timestamp" when `parseInt` gives NaN; otherwise the formatted instant, read as milliseconds above 9999999999 and as seconds otherwise (`NotANumber`, `SameInstant`) |
| Epoch.EpochText | pages/tools/epoch-to-date.tsx:38-51 | "Please select a date" without a date, the invalid-date text when the combined text does not parse, otherwise the whole seconds of the instant (`NoDate`, `EpochOfDate`, `RoundTrip`) |
| Epoch.MillisecondsText | pages/tools/epoch-to-date.tsx:227-229 | The converted epoch times 1000 when it is an integer, and empty otherwise (`MillisecondsShown`) |
| Epoch.Page.constructor | pages/tools/epoch-to-date.tsx:9-16 | Every text field is empty and the time zone is local |
| Epoch.ToMilliseconds | pages/tools/epoch-to-date.tsx:29 | Above 9999999999 the timestamp is milliseconds; otherwise it is seconds times 1000 |
| Epoch.Seconds | pages/tools/epoch-to-date.tsx:47 | The whole seconds of an instant, rounded down |
| Epoch.NotANumber | pages/tools/epoch-to-date.tsx:27-35 | A timestamp that does not start, after white space, with a sign or a digit shows "Invalid timestamp" |
| Epoch.SameInstant | pages/tools/epoch-to-date.tsx:29 | A seconds timestamp from 10^7 up to the limit and the same instant in milliseconds show the same date |
| Epoch.NoDate | pages/tools/epoch-to-date.tsx:39-42 | An empty date shows "Please select a date" and nothing is parsed |
| Epoch.CombinedParts | pages/tools/epoch-to-date.tsx:43-44 | The parsed text is the date, "T", the time or "00:00", and "Z" exactly in GMT mode |
| Epoch.EpochOfDate | pages/tools/epoch-to-date.tsx:45-47 | The epoch of a parsed date reads back as the instant's whole seconds |
| Epoch.RoundTrip | pages/tools/epoch-to-date.tsx:27-47 | Date to epoch and back shows the instant rounded down to the second, while the seconds are up to the limit |
| Epoch.ReadBack | pages/tools/epoch-to-date.tsx:27-32 | The seconds of an instant, converted back, are the instant rounded down to the second while they are up to the limit |
| Epoch.MillisecondsShown | pages/tools/epoch-to-date.tsx:227-229 | The milliseconds line is the epoch times 1000, and empty for the two error texts |
| Epoch.Page.Tick | pages/tools/epoch-to-date.tsx:18-24 | The first of two clock readings in seconds, rounded down, and the second in milliseconds; nothing else changes |
| Epoch.Page.Convert | pages/tools/epoch-to-date.tsx:26-36 | The converted date is the formatted instant of the timestamp, or "Invalid timestamp" |
| Epoch.Page.DateToEpoch | pages/tools/epoch-to-date.tsx:38-51 | The converted epoch is the seconds of the combined date, or the matching error text |
| TextDiff.EscapeHtmlAsWritten | pages/tools/text-diff-checker.tsx:19-20 | The page's `escapeHtml`: `<` and `>` replaced, `&` left alone (`EscapeAsWrittenWithoutAmpersand`, `NoMarkup`, `EntityShownAsCharacter`) |
| TextDiff.TagShowsNothing | pages/tools/text-diff-checker.tsx:43-58 | A tag shows no text |
| TextDiff.EscapeHtmlReplaces | pages/tools/text-diff-checker.tsx:19-20 | The corrected escaping is the page's two replacements preceded by a replacement of "&" |
| TextDiff.EscapeCharReplaces | pages/tools/text-diff-checker.tsx:19-20 | On one character: "&" is "&amp;", then the page's two replacements |
| TextDiff.EscapeAsWrittenWithoutAmpersand | pages/tools/text-diff-checker.tsx:19-20 | Without "&" in the text, the page's escaping is the corrected one |
| TextDiff.NoMarkup | pages/tools/text-diff-checker.tsx:19-20 | The escaped text holds no "<" or ">", whichever escaping is used |
| TextDiff.EscapeCharShows | pages/tools/text-diff-checker.tsx:19-20 | An escaped character shows as the character |
| TextDiff.EscapedShowsText | pages/tools/text-diff-checker.tsx:19-20 | The escaped text shows as the text itself |
| TextDiff.EscapeInjective | pages/tools/text-diff-checker.tsx:19-20 | The corrected escaping loses nothing: different texts escape differently |
| TextDiff.EntityShownAsCharacter | pages/tools/text-diff-checker.tsx:19-20 | As written, "&lt;" and "<" escape to the same HTML, which shows as "<" |
| TextDiff.BuildColumns | pages/tools/text-diff-checker.tsx:35-61 | The `forEach` gives the left and the right cell of every part, in order, escaped with the page's `escapeHtml` |
| TextDiff.PartCells | pages/tools/text-diff-checker.tsx:38-60 | One part gives its left and right cells, escaped with the page's `escapeHtml` |
| TextDiff.WrappedShowsText | pages/tools/text-diff-checker.tsx:43-58 | A cell shows the part's text: with the corrected escaping always, with the page's when the text has no "&" |
| TextDiff.LeftShowsOld | pages/tools/text-diff-checker.tsx:35-61 | The left column shows the parts that are not added; with the page's escaping, when they hold no "&" |
| TextDiff.RightShowsNew | pages/tools/text-diff-checker.tsx:35-61 | The right column shows the parts that are not removed; with the page's escaping, when they hold no "&" |
| TextDiff.ColumnsShowTexts | pages/tools/text-diff-checker.tsx:29-64 | For a diff of two texts, the left column shows the first text and the right column the second: on the page when neither text holds "&", and with the corrected escaping always |
| TextDiff.ColumnEntityShown | pages/tools/text-diff-checker.tsx:41-58 | On the page, a common part "&lt;" is shown as "<" in both columns |
| TextDiff.CellsAligned | pages/tools/text-diff-checker.tsx:35-61 | Both columns have one cell per part: an added part an empty left cell and a green right span, a removed part a red left span and an empty right cell, a common part the same plain span on both sides |
| TextDiff.Page.constructor | pages/tools/text-diff-checker.tsx:12-17 | Empty texts, line mode, empty columns and no error |
| TextDiff.Page.SelectDiffType | pages/tools/text-diff-checker.tsx:14 | Sets the diff mode and nothing else |
| TextDiff.Page.Compare | pages/tools/text-diff-checker.tsx:22-68 | A text over 10000 code units shows the limit error, and a failing diff the compare error, both keeping the columns; otherwise the columns of the parts as the page escapes them, and no error |
| TextDiff.Page.Reset | pages/tools/text-diff-checker.tsx:70-76 | Texts, columns and error are cleared |
| TextDiff.Page.LoadExample | pages/tools/text-diff-checker.tsx:78-92 | The example texts are loaded, and the columns and error cleared |

## Left out

- Clipboard, downloads, file uploads, `<Head>` metadata and the page layout are presentation only and are not modelled.
- `JSON.parse`, `JSON.stringify`, `DOMParser`, the `diff` library, `crypto.subtle.digest`, the MD5 library, `Date` and `toLocaleString` are foreign engines. They are parameters, and only what the pages do around them is modelled.
- Numbers are unbounded integers. Floating point, and `parseInt` and `toString` beyond the safe-integer range, are not modelled.
- Strings are sequences of Unicode scalar values, so lone surrogates cannot be written. The `URIError` that `encodeURIComponent` throws for them is not modelled.
- `toLowerCase` and `toUpperCase` are modelled on ASCII letters only.
- `for ... in` visits integer-like object keys first, in numeric order. The model keeps insertion order.
- Assigning to the key `__proto__` is a plain assignment in the model.
- The `diffLines`/`diffWords` choice is a parameter, and the `catch` of `handleCompare` is that parameter's `None`.
- The page's `decodeHtmlEntities` parses HTML in a `textarea`, which is the browser's parser. `HtmlEntities.DecodeNumeric` stands in for it as the encoder's inverse. The other handlers of that page only set the two text areas.
- HtmlEntities: the pattern carries the `i` flag, and case folding makes a few code units above U+9999 match as well (for example the Cherokee small letters). The model matches the plain range only.
- The test vectors "Hello, Base64!" ↔ "SGVsbG8sIEJhc2U2NCE=" and the URL example pair are not evaluated. `Base64Tool.RoundTrip`, `UrlTool.RoundTrip` and `UrlTool.EncodeSpaces` cover them for every input.
- `handleReset` and `handleExample` of the Base64, CSV-to-XML, text-case, HTML-entity and word-counter pages only assign constants to their text areas, and are not modelled.
- The JWT page's payload is read as a binary string (one character per byte) before `JSON.parse`, as `atob` gives it. It is not decoded as UTF-8.
- JsonToXml.StringLines: the page's `for ... in` over a string visits UTF-16 code units, and a character above U+FFFF is a surrogate pair. The page then emits two lines, each holding a lone surrogate: `"😀"` gives `<0>\uD83D</0>` and `<1>\uDE00</1>`. A Dafny `char` cannot hold a lone surrogate, so the model emits one line per character, here `<0>😀</0>`. The line count and the keys after such a character differ from the page. `JsonToXml.StringLinesUnits` proves that they agree on text without such characters.
- XmlToJson.AddChild: on the page, `obj[key]` also finds the members a fresh object inherits from `Object.prototype` (`constructor`, `toString`, `valueOf`, `hasOwnProperty` and the rest). A first child with such a name becomes `[<inherited function>, value]`, which is written `[null, value]`. The model looks up own keys only, so it assigns the value.
- XmlToJson.AddChildInPlace: the same own-keys-only lookup as `AddChild`.
- XmlToJson.Grouping: holds for element names that are not members inherited from `Object.prototype`; for those names the page puts a leading `null` in the group, as `AddChild` describes.
- XmlToJson.Page.Convert: for elements named after inherited `Object.prototype` members, the page's output carries that leading `null` and the model's does not.
- XmlToJson.KeptValue: the `value === null \|\| value === ""` test is dead code after the child filter. The lemma proves that it never fires.
- XmlToJson.Page.Convert: the fallback message "Failed to parse XML" is unreachable because every thrown error has a message. The model has only the parser-error branch.
- CsvToXml.CellLineContent: tags are trimmed but never escaped, as on the page. Only the values are escaped.
- NumberBase.ErrorIffNaN: "❌ Conversion error" is unreachable for an offered base. `Converted` keeps the branch for radices outside 2..36; `NumberBase.Page.Convert` requires `Valid()`, so there the `catch` is a dead branch.
- Epoch.IntegerValue and Epoch.MillisecondsText read a plain optional minus sign and decimal digits. Other texts `Number` accepts (exponents, fractions, hexadecimal) cannot be shown in the epoch field, because it only ever holds an integer or an error text.
- Epoch: local versus UTC parsing and formatting of dates are the `parse` and `format` parameters.
- AgeCalculator.UnitChain: the difference of the instants is a `nat`, because the page rejects an end before the start. Daylight-saving effects are part of the `Date` parameters.
- TextDiff.TextContent reads the three entities `&lt;`, `&gt;` and `&amp;` only. These are all the escaping writes.
- TypingPractice: the sentence drawn by `Math.random()` is a parameter `x` in [0, 1).

## Findings

| source | as written | input that shows it | evidently intended | confidence | as-written member | corrected member |
|---|---|---|---|---|---|---|
| pages/tools/jwt-decoder.tsx:19-20 | The segments are decoded with `atob`, which knows only the standard Base64 alphabet | A token whose header or payload segment holds "-" or "_", such as the bytes FB FF written "-_8" | Decode the segments as the URL-safe Base64 of section 2 of RFC 7515 | not executed | JwtDecoder.UrlHeaderRejected | JwtDecoder.SegmentRoundTrip |
| pages/tools/text-diff-checker.tsx:19-20 | `escapeHtml` replaces "<" and ">" but leaves "&" alone | The text "&lt;" is shown as "<", the same as the text "<" | Escape "&" first, so that every text is shown as itself | not executed | TextDiff.ColumnEntityShown | TextDiff.EscapeInjective |
| pages/tools/age-calculator.tsx:31-35 | One borrow of the previous month's length, even when the start day is past that month's end | 2023-01-31 to 2023-03-01 gives 0 years 1 months -2 days, and 2023-01-31 to 2023-02-28 gives 0 months 28 days | Anchor the start day at the end of a shorter month, giving 1 day and 1 month 0 days | not executed | AgeCalculator.NegativeDaysAsWritten | AgeCalculator.BreakdownBounds |
