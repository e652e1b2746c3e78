# xkcd colour extractor — Dafny model

`utilities/xkcd_color/color_extract.py` downloads the xkcd colour survey
list, which has one `name<TAB>#hex` entry per line. It finds the entries with
a regular expression and writes a C# file of colour fields. Each field looks
like `public static readonly Color DustyOrange = new Color(0xED6D3DFF);`.

This model follows the script step by step:

- **Chars**: the character classes of the pattern `([a-zA-Z0-9 /]+)\s+\#([a-fA-F0-9]+)`.
  `\s` is Python's whitespace set (`str.isspace`). Also ASCII upper- and lower-casing.
- **Text**: counting a character, and concatenating a sequence of strings.
- **Pattern**: a hand-written scanner `MatchAt` for the pattern at one position.
  - It is proved to pick the decomposition `Preferred` describes: of all ways
    to split the text into name, whitespace, `#` and hex digits, the one with
    the longest name, then the longest whitespace, then the longest hex. That
    is the one greedy backtracking tries first. The engine itself is not
    modelled, so this last step is an argument, not a proof.
  - `Scan`, `FindSpans` and `FindAll` model `findall`. The scan tries each
    position in turn, takes the leftmost match, and resumes at the end of that
    match. `Scan` works over a table of the anchored match at every position.
  - The scan is proved to return non-overlapping matches in order. No match
    starts between `pos` and the first reported span (`LeftmostFirst`). Every
    matching position lies at or inside a reported span (`FindSpansCovers`),
    so with `ScanOrdered` no match falls in a gap between spans.
- **Naming**: the colour-name pipeline of lines 38-43, namely `title()`,
  `replace('/', 'And')`, `split(' ')` and the concatenation loop. The loop is
  the method `Identifier`, proved against the function `IdentifierOf`.
- **Format**: the hex literal `0x` + upper-cased hex + `FF` and its numeric
  value; the declaration template; the count message printed on lines 26-29.
- **Generator**: the three loops of the script as methods, plus `Run`.
  - `ExtractEntries` is the loop over the matches findall returns.
  - `WriteDeclarations` is the output loop. It returns the strings written to
    the file, in order.
  - `Run` is the whole script on the downloaded text.
- **Scenarios**: concrete runs.
  - `dusty orange #ed6d3d` yields exactly the `DustyOrange` declaration.
  - `blue/green #00ffff` yields `BlueAndGreen`.
  - A colour listed twice is extracted twice.

The `exit` on line 30 is a bare name, not a call, so it does nothing. When the
list holds no entry, the script still opens the file and writes it empty.
`Run` states this in its last `ensures`.

## Model

| member | source | states |
|---|---|---|
| Pattern.MatchAtSound | utilities/xkcd_color/color_extract.py:5 | a match reported at position i is a decomposition (name chars, whitespace, `#`, hex digits) and is greater than every other decomposition at i in the order (name end, hash position, end), i.e. the one greedy backtracking finds first |
| Pattern.MatchAtComplete | utilities/xkcd_color/color_extract.py:5 | whenever any decomposition of the text from position i exists, a match is reported at i |
| Pattern.RunEnd | utilities/xkcd_color/color_extract.py:5 | the greedy run of one character class from i: every character in it belongs to the class and the next one does not |
| Pattern.Scan | utilities/xkcd_color/color_extract.py:20 | the findall scan over a table of anchored matches: every reported span starts at or after pos, ends within the text, and is the table's match at its start |
| Pattern.ScanOrdered | utilities/xkcd_color/color_extract.py:20 | the reported spans follow one another in increasing order without overlapping |
| Pattern.FindSpans | utilities/xkcd_color/color_extract.py:20 | findall from pos: every reported span starts at or after pos and is the anchored match at its start; the spans are non-empty and pairwise non-overlapping, in increasing order |
| Pattern.FindSpansCovers | utilities/xkcd_color/color_extract.py:20 | every position at or after pos where the pattern matches is either the start of a reported span or lies inside one, so no match is skipped |
| Pattern.LeftmostFirst | utilities/xkcd_color/color_extract.py:20 | no position between pos and the first reported span's start matches; with no span, no position from pos onward matches |
| Pattern.FindAll | utilities/xkcd_color/color_extract.py:20-22 | exactly one (name, hex) entry per match that findall reports |
| Pattern.FindAllWellFormed | utilities/xkcd_color/color_extract.py:5 | every extracted name is non-empty and made only of letters, digits, spaces and `/`; every hex part is a non-empty string of hex digits |
| Generator.ExtractEntries | utilities/xkcd_color/color_extract.py:18-24 | given the entries findall returns, the loop collects exactly those entries in the same order (none dropped, none merged) and items_found equals their number |
| Naming.TitleAt | utilities/xkcd_color/color_extract.py:38 | title(): each character is upper-cased when it starts a word (no letter before it) and lower-cased otherwise; non-letters are unchanged; length is kept |
| Naming.TitleIdempotent | utilities/xkcd_color/color_extract.py:38 | title() applied twice gives the same as once |
| Naming.TitleKeepsNonLetters | utilities/xkcd_color/color_extract.py:38 | a non-letter occurs in title(s) exactly when it occurs in s |
| Naming.TitleLowerWord | utilities/xkcd_color/color_extract.py:38 | a lower-case word becomes its first letter upper-cased followed by the rest unchanged |
| Naming.TitleFromAppend | utilities/xkcd_color/color_extract.py:38 | title of a concatenation is the title of the first part followed by the second part cased according to the last character of the first |
| Naming.ReplaceSlashKeeps | utilities/xkcd_color/color_extract.py:38 | replace('/', 'And') leaves no `/`, grows the text by two per `/`, and keeps every other character in both directions |
| Naming.ReplaceOneSlash | utilities/xkcd_color/color_extract.py:38 | a `/` between two parts is replaced by `And`, with each part replaced independently |
| Naming.ReplaceSlashNoSlash | utilities/xkcd_color/color_extract.py:38 | a text without `/` is left unchanged |
| Naming.ReplaceSlashBetween | utilities/xkcd_color/color_extract.py:38 | a `/` between two slash-free parts becomes `And` and the parts are kept as they are |
| Naming.TitleAround | utilities/xkcd_color/color_extract.py:38 | title() of two parts around a non-letter is the title of each part with the separator kept, because a new word starts after it |
| Naming.TitleTwoWords | utilities/xkcd_color/color_extract.py:38 | two lower-case words around a non-letter separator are each given a capital initial, the rest unchanged |
| Naming.SplitOnSpacePieces | utilities/xkcd_color/color_extract.py:39 | split(' ') yields one more piece than there are spaces (empty pieces kept), and no piece holds a space |
| Naming.SplitJoin | utilities/xkcd_color/color_extract.py:39 | joining the pieces of split(' ') with single spaces gives back the original text |
| Naming.ConcatSplit | utilities/xkcd_color/color_extract.py:39-43 | concatenating the split pieces is the text with every space removed |
| Naming.RemoveSpacesKeeps | utilities/xkcd_color/color_extract.py:39-43 | removing spaces leaves no space, shortens the text by the number of spaces, and keeps every other character in both directions |
| Naming.IdentifierOf | utilities/xkcd_color/color_extract.py:38-43 | the identifier built from a colour name contains neither a space nor a `/` |
| Naming.IdentifierOfSlash | utilities/xkcd_color/color_extract.py:38-43 | for any parts around it, a `/` in the name contributes exactly `And` to the identifier, and each part is converted on its own |
| Naming.IdentifierOfSpace | utilities/xkcd_color/color_extract.py:38-43 | for any parts around it, a space in the name contributes nothing to the identifier, and each part is converted on its own |
| Naming.IdentifierOfSpaced | utilities/xkcd_color/color_extract.py:38-43 | two lower-case words separated by a space become the two capitalised words written together |
| Naming.IdentifierOfSlashed | utilities/xkcd_color/color_extract.py:38-43 | two lower-case words separated by a `/` become the two capitalised words joined by `And` |
| Naming.Identifier | utilities/xkcd_color/color_extract.py:38-43 | the title/replace/split/concatenate loop computes exactly IdentifierOf of the raw name |
| Format.UpperAll | utilities/xkcd_color/color_extract.py:47 | upper(): same length, each character upper-cased, non-lower-case characters unchanged |
| Format.HexLiteral | utilities/xkcd_color/color_extract.py:47 | the literal is `0x`, then the upper-cased hex digits in order, then `FF`; it is four characters longer and holds no lower-case `a`-`f` |
| Format.HexValueUpper | utilities/xkcd_color/color_extract.py:47 | upper-casing hex digits does not change the number they denote |
| Format.LiteralValue | utilities/xkcd_color/color_extract.py:10 | the digits after `0x` denote the colour's value times 256 plus 255 (an opaque alpha byte); for a six-digit colour this fits in 32 bits |
| Format.DeclarationShape | utilities/xkcd_color/color_extract.py:9 | the field line starts with the `public static readonly Color ` prefix, ends with `);` and a line break, and has the template's length plus the identifier's and literal's |
| Format.DeclarationLineBreaks | utilities/xkcd_color/color_extract.py:9 | the line holds one line break more than the identifier and the literal together |
| Format.ParseDeclarationRoundTrip | utilities/xkcd_color/color_extract.py:9 | the identifier and literal can be read back from the field line when the identifier has no space |
| Format.ParseDeclarationSound | utilities/xkcd_color/color_extract.py:9 | any line that parses is exactly the declaration of what it parses to |
| Format.Decimal | utilities/xkcd_color/color_extract.py:27 | %d of a natural number is a non-empty string of digits without a leading zero |
| Format.DecimalRoundTrip | utilities/xkcd_color/color_extract.py:27 | the digits of %d read back as the number |
| Format.CountMessageShape | utilities/xkcd_color/color_extract.py:27 | a positive count is reported as `> `, its digits, and the singular ending for one entry or the plural ending otherwise |
| Format.CountMessageCases | utilities/xkcd_color/color_extract.py:26-29 | the message is the no-entry message iff the count is 0, ends in the singular ending iff it is 1, ends in the plural ending iff it is at least 2, and its digits give the count |
| Generator.WriteDeclarations | utilities/xkcd_color/color_extract.py:35-49 | the output loop writes one declaration line per entry, in order, each built from the entry's identifier and hex literal |
| Generator.Run | utilities/xkcd_color/color_extract.py:18-49 | the script prints the count message for the number of entries and writes the declaration lines of all entries; with no entry it prints the no-entry message and still writes an empty file |
| Generator.OneLinePerEntry | utilities/xkcd_color/color_extract.py:35-49 | the written file holds exactly one line break per extracted entry |
| Generator.LinesReadBack | utilities/xkcd_color/color_extract.py:49 | every written line parses back to the entry's identifier and hex literal |
| Generator.SingleEntryFile | utilities/xkcd_color/color_extract.py:35-49 | a list with a single entry produces a file that is exactly that entry's declaration line |
| Scenarios.DustyOrangeMatch | utilities/xkcd_color/color_extract.py:5 | on `dusty orange #ed6d3d` the pattern matches from 0 with name `dusty orange` and hex `ed6d3d` |
| Scenarios.DustyOrangeIdentifier | utilities/xkcd_color/color_extract.py:38-43 | `dusty orange` becomes the identifier `DustyOrange` |
| Scenarios.DustyOrangeLiteral | utilities/xkcd_color/color_extract.py:47 | `ed6d3d` becomes the literal `0xED6D3DFF` |
| Scenarios.DustyOrangeFile | utilities/xkcd_color/color_extract.py:5-49 | the file generated from `dusty orange #ed6d3d` is exactly `public static readonly Color DustyOrange = new Color(0xED6D3DFF);` and a line break |
| Scenarios.BlueGreenIdentifier | utilities/xkcd_color/color_extract.py:38-43 | `blue/green` becomes the identifier `BlueAndGreen` |
| Scenarios.BlueGreenFile | utilities/xkcd_color/color_extract.py:5-49 | the file generated from `blue/green #00ffff` is exactly `public static readonly Color BlueAndGreen = new Color(0x00FFFFFF);` and a line break |
| Scenarios.DuplicatesKept | utilities/xkcd_color/color_extract.py:18-24 | a colour listed twice is extracted twice, as two equal entries |

## Left out

- Fetching the list over HTTP and decoding it as UTF-8 (lines 4, 13-15). `Run`
  takes the decoded text as its parameter.
- Opening `colors.cs` and the file object (lines 8, 34). The model returns the
  strings passed to `output_file.write` on line 49, in order. Their
  concatenation is what the file holds where the line separator is `\n`.
- The newline translation of text mode. Line 34 opens the file with `'w'`, so
  every `\n` written is stored as the platform's line separator (`\r\n` on
  Windows). `OutputFile` is the text before that translation.
- The console messages of lines 12, 17, 33 and 51. The count message of lines
  26-29 is returned as `message` instead of printed.
- The general regular-expression engine. Only this one pattern is modelled, by
  the scanner and its proof against the backtracking order. Python's search
  shortcuts are not modelled; they do not change the result.
- Naming.WordCase: models Python's `title()` for ASCII letters only. Other
  characters count as uncased and are left as they are. The pattern only lets
  ASCII letters, digits, spaces and `/` into a name, so this covers every input
  the pipeline receives.
- Chars.Upper: ASCII only. Hex digits are ASCII.
- Faults the script does not handle (network errors, invalid UTF-8, an
  unwritable file). These raise exceptions the script does not catch, and they
  are not modelled.
- The generated identifier is not checked to be a valid C# identifier; a name
  starting with a digit would give one that is not. The script does not check
  this either.
