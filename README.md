# String search and replace kernels of TiFlash, modelled in Dafny

This project models the core of TiFlash's string-search functions in
`dbms/src/Functions/FunctionsStringSearch.cpp`:

- `position` (`PositionImpl`) over constant strings and string columns, in the ASCII and the
  UTF-8 variants, with the two `countChars` counters;
- `replaceAll` / `replaceOne` over strings (`ReplaceStringImpl`): the kernels for a constant
  string, for a string column with one needle, for a column with one needle per row, and for
  a fixed-width string column;
- the template parser of `replaceRegexpAll` / `replaceRegexpOne` (`createInstructions`);
- the RE2 mode-modifier prefix that the regexp functions build from MySQL's `match_type`
  and the collator (`getRE2ModeModifiers`);
- the two LIKE-pattern helpers: `likePatternIsStrstr` and `replaceEscapeChar`.

A string column is a byte buffer holding every row followed by a zero byte, plus one end
offset per row (`Columns.StringColumn`, `Columns.Valid`). Each kernel is an imperative Dafny
method with loop invariants that follows the source's loops. It is proved against a
reference function on values:

- `ReplaceSpec.Replace` for replacing: occurrences are found left to right and never overlap;
  with `one`, only the first is replaced; an empty needle changes nothing.
- `Position.PositionOf` for `position`: 0 when the needle is absent, otherwise 1 plus the
  number of characters before the first occurrence.
- `ReplaceRegexp.Instructions` for the template parser.
- `RegexpModes.ModeModifiers` for the mode prefix.
- `LikePattern.StrstrNeedle` and `LikePattern.EscapeRewrite` for the LIKE helpers.

Lemmas then state what these reference functions promise. For the LIKE helpers, that
meaning is given by a token reading of LIKE patterns (`LikePattern.Tokens`,
`LikePattern.Matches`).

The column kernels search the whole buffer at once, and a match may run across the end of
a row. The proofs show that every output row is nonetheless exactly the reference result
for that row alone. Two modelling choices make this work:

- The Volnitsky searcher of the column kernels is modelled as "first occurrence at or after a
  position" (`Search.Find`). The small-haystack searcher of `vectorVector` and `constantVector`
  is modelled the same way, which holds for rows and needles without zero bytes (see
  "## Left out").
- `std::string::find` is modelled as `Search.StringFind`.

## Model

| member | source | states |
|---|---|---|
| Search.Find | dbms/src/Functions/FunctionsStringSearch.cpp:1138 | the searcher answers a position at or after its start, and an occurrence when it is not the end |
| Search.FindFirst | dbms/src/Functions/FunctionsStringSearch.cpp:1138 | no occurrence lies between the start of the search and its answer: the searcher finds the first one |
| Search.FindInWindow | dbms/src/Functions/FunctionsStringSearch.cpp:1143-1160 | the whole-buffer search, read for one row, is the row's own first occurrence when it ends inside the row, and "none" when it crosses the row's end |
| Search.StringFind | dbms/src/Functions/FunctionsStringSearch.cpp:229 | `std::string::find` answers the first occurrence or none; the empty needle is found at 0 |
| Columns.PackRows | dbms/src/Functions/FunctionsStringSearch.cpp:1175-1183 | rows written one after the other, each with a zero byte and its end offset recorded, form a well-formed column whose row k is the k-th row written |
| Columns.PackChunks | dbms/src/Functions/FunctionsStringSearch.cpp:1121-1127 | a well-formed column is exactly its rows and terminators packed again, so copying data and offsets copies every row |
| ReplaceSpec.Replace | dbms/src/Functions/FunctionsStringSearch.cpp:1784-1788 | an empty needle returns the data unchanged |
| ReplaceSpec.ReplaceLeftToRight | dbms/src/Functions/FunctionsStringSearch.cpp:1791-1807 | replaceAll replaces the first occurrence and then the text after it on its own, so replacements go left to right and never overlap |
| ReplaceSpec.ReplaceFirstOnly | dbms/src/Functions/FunctionsStringSearch.cpp:1794-1795 | replaceOne replaces exactly the first occurrence and keeps the rest |
| ReplaceSpec.NoOccurrenceUnchanged | dbms/src/Functions/FunctionsStringSearch.cpp:1782-1808 | when the needle does not occur, the output equals the input |
| ReplaceSpec.ReplaceBySelf | dbms/src/Functions/FunctionsStringSearch.cpp:1782-1808 | replacing a needle by itself changes nothing |
| ReplaceSpec.ReplaceFromSuffix | dbms/src/Functions/FunctionsStringSearch.cpp:1228-1253 | resuming the replacement at a point is replacing in the rest of the text on its own |
| ReplaceString.Constant | dbms/src/Functions/FunctionsStringSearch.cpp:1782-1808 | the byte-by-byte loop with its replace counter computes the replacement of the needle in the string |
| ReplaceString.MatchesAt | dbms/src/Functions/FunctionsStringSearch.cpp:1796-1798 | the inner comparison loop answers whether the needle occurs at i |
| ReplaceString.Vector | dbms/src/Functions/FunctionsStringSearch.cpp:1101-1185 | the result is a well-formed column with one offset per input row; each row is that row with the needle replaced, so no replacement crosses rows |
| ReplaceColumn.ReplacedColumn | dbms/src/Functions/FunctionsStringSearch.cpp:1159-1183 | the replaced rows, each followed by its zero byte, form a column whose row k is row k replaced |
| ReplaceColumn.EmptyNeedleRows | dbms/src/Functions/FunctionsStringSearch.cpp:1121-1127 | with an empty needle, the input data and offsets are already the replaced column |
| ReplaceNonConst.ReplaceSearched | dbms/src/Functions/FunctionsStringSearch.cpp:1228-1253 | the search-copy-replace loop for one buffer computes the replacement of the needle in it |
| ReplaceNonConst.VectorNonConstNeedle | dbms/src/Functions/FunctionsStringSearch.cpp:1187-1259 | as written: each output chunk is the input row with its zero byte, in which row i's own needle is replaced (an empty needle copies it) |
| ReplaceNonConst.VectorNonConstNeedleInRow | dbms/src/Functions/FunctionsStringSearch.cpp:1187-1259 | as intended: a well-formed column with one row per input row, row k being row k with row k's needle replaced |
| ReplaceNonConst.KeepsTerminator | dbms/src/Functions/FunctionsStringSearch.cpp:1208-1216 | a needle not ending in a zero byte never touches the terminator: replacing in row plus zero is replacing in the row, then the zero |
| ReplaceNonConst.SearchedChunksAgree | dbms/src/Functions/FunctionsStringSearch.cpp:1187-1259 | when no needle ends in a zero byte, the kernel as written produces the intended rows |
| ReplaceNonConst.RowChunksColumn | dbms/src/Functions/FunctionsStringSearch.cpp:1253-1257 | the intended chunks pack into a well-formed column with row k replaced by its own needle |
| ReplaceNonConst.TerminatorReplaced | dbms/src/Functions/FunctionsStringSearch.cpp:1209-1216 | a needle ending in a zero byte replaces a row's terminator, and the output is not a well-formed column |
| ReplaceFixed.VectorFixed | dbms/src/Functions/FunctionsStringSearch.cpp:1430-1524 | the output is a well-formed column of data size / n rows, row k being the width-n input row k with the needle replaced (a match may end exactly at the row end) |
| ReplaceFixed.WriteFixedChunks | dbms/src/Functions/FunctionsStringSearch.cpp:1430-1524 | the kernel writes, row after row, the replaced width-n row followed by a zero byte, and each end offset |
| ReplaceFixed.FixedColumn | dbms/src/Functions/FunctionsStringSearch.cpp:1446-1464 | those chunks form a well-formed column with one row per fixed-width row |
| ReplaceFixed.CopyRows | dbms/src/Functions/FunctionsStringSearch.cpp:1466-1473 | with an empty needle every width-n row is copied and given its zero byte |
| ReplaceFixed.RowBounds | dbms/src/Functions/FunctionsStringSearch.cpp:1446 | each of the data size / n rows lies inside the buffer |
| ReplaceFixed.RowsEnd | dbms/src/Functions/FunctionsStringSearch.cpp:1446 | the rows end inside the buffer, and what follows the last row is shorter than n, so it is no row |
| Position.CountChars | dbms/src/Functions/FunctionsStringSearch.cpp:122-129 | countChars counts the bytes between two points for ASCII, and the bytes that are not UTF-8 continuation octets for UTF-8 |
| Position.CharsAppend | dbms/src/Functions/FunctionsStringSearch.cpp:122-129 | the count of a concatenation is the sum of the counts |
| Position.CharsAtMostBytes | dbms/src/Functions/FunctionsStringSearch.cpp:122-129 | a string never has more characters than bytes |
| Position.SevenBitChars | dbms/src/Functions/FunctionsStringSearch.cpp:68-71 | on 7-bit text the UTF-8 count equals the ASCII byte count |
| Position.EncodedChars | dbms/src/Functions/FunctionsStringSearch.cpp:122-129 | the UTF-8 count of an encoded text is its number of code points |
| Position.PositionEmptyNeedle | dbms/src/Functions/FunctionsStringSearch.cpp:258-262 | an empty needle yields 1 |
| Position.PositionZero | dbms/src/Functions/FunctionsStringSearch.cpp:229-231 | the answer is 0 exactly when a non-empty needle does not occur |
| Position.PositionOfFirst | dbms/src/Functions/FunctionsStringSearch.cpp:229-233 | a first occurrence at byte k gives 1 plus the characters of the k bytes before it |
| Position.PositionFound | dbms/src/Functions/FunctionsStringSearch.cpp:229-233 | a non-zero answer is 1 plus the characters before a first occurrence |
| Position.Utf8PositionAtMostAscii | dbms/src/Functions/FunctionsStringSearch.cpp:122-129 | the UTF-8 position is never after the ASCII one, and they agree on 7-bit text |
| Position.ConstantConstant | dbms/src/Functions/FunctionsStringSearch.cpp:222-234 | a non-default escape character, a match_type or a collator is refused as not implemented; otherwise the answer is the position of the needle |
| Position.SearchOne | dbms/src/Functions/FunctionsStringSearch.cpp:256-281 | per row: 1 for an empty needle, else the position found by the small-haystack searcher |
| Position.VectorVector | dbms/src/Functions/FunctionsStringSearch.cpp:237-285 | refused as not implemented as above; otherwise one answer per row, the position of the row's own needle in it |
| Position.ConstantVector | dbms/src/Functions/FunctionsStringSearch.cpp:288-326 | refused as above; otherwise one answer per needle row, its position in the constant haystack |
| Position.VectorConstant | dbms/src/Functions/FunctionsStringSearch.cpp:176-219 | refused as above; otherwise one answer per row, the needle's position in that row, although a single search runs over all rows |
| Position.WindowPosition | dbms/src/Functions/FunctionsStringSearch.cpp:206-212 | a match that ends before a row's zero byte gives 1 plus the characters before it; one that reaches the zero byte or beyond gives 0, which is the row's true answer |
| Position.RowBeforeMatch | dbms/src/Functions/FunctionsStringSearch.cpp:199-203 | a row that ends before the next match holds no occurrence and answers 0 |
| Position.RowAtMatch | dbms/src/Functions/FunctionsStringSearch.cpp:206-212 | the row in which the match starts answers the needle's position in that row |
| RegexpModes.GetRE2ModeModifiers | dbms/src/Functions/FunctionsStringSearch.cpp:344-393 | the options loop computes the mode-modifier string of match_type and the collator, or an error |
| RegexpModes.WriteModifiers | dbms/src/Functions/FunctionsStringSearch.cpp:379-392 | the prefix written for a set of options |
| RegexpModes.InvalidLetterThrows | dbms/src/Functions/FunctionsStringSearch.cpp:374-375 | the answer is an error exactly when some match_type letter is outside icsm |
| RegexpModes.EmptyExactlyForDefaults | dbms/src/Functions/FunctionsStringSearch.cpp:379-392 | the prefix is empty exactly when the options are case sensitive, one-line and not dot-nl |
| RegexpModes.RenderOrder | dbms/src/Functions/FunctionsStringSearch.cpp:381-388 | otherwise it is `(?`, then one letter for each option that differs from the default (m, i, s, in that order, and no other), then `)` |
| RegexpModes.RenderRoundTrip | dbms/src/Functions/FunctionsStringSearch.cpp:379-392 | the prefix can be read back into the options it was written from |
| RegexpModes.LaterLetterWins | dbms/src/Functions/FunctionsStringSearch.cpp:352-365 | a later deciding i or c overrides earlier letters and the collator |
| RegexpModes.LastLetter | dbms/src/Functions/FunctionsStringSearch.cpp:358-365 | c makes the search case sensitive; i makes it insensitive, but is ignored under a binary collator |
| RegexpModes.CollatorDecides | dbms/src/Functions/FunctionsStringSearch.cpp:347-349 | with no deciding letter, a case-insensitive collator decides |
| LikePattern.LikePatternIsStrstr | dbms/src/Functions/FunctionsStringSearch.cpp:396-433 | the walk over the pattern answers whether it is a plain substring search, with the needle when it is |
| LikePattern.StrstrIffTokens | dbms/src/Functions/FunctionsStringSearch.cpp:396-433 | a pattern is a substring search for x exactly when it reads as any run, the literals of x, any run |
| LikePattern.MatchesContains | dbms/src/Functions/FunctionsStringSearch.cpp:395 | a string matches `%x%` exactly when it contains x |
| LikePattern.StrstrMeaning | dbms/src/Functions/FunctionsStringSearch.cpp:395-433 | the substring search a pattern is reduced to answers exactly as the LIKE pattern does |
| LikePattern.StrstrRoundTrip | dbms/src/Functions/FunctionsStringSearch.cpp:396-433 | every needle, written escaped between two %, is recognised as that needle |
| LikePattern.ReplaceEscapeChar | dbms/src/Functions/FunctionsStringSearch.cpp:439-480 | the walk with one character of look-ahead computes the rewrite of the pattern to backslash escapes |
| LikePattern.RewriteKeepsTokens | dbms/src/Functions/FunctionsStringSearch.cpp:439-480 | for an escape character other than backslash, % and _, the rewritten pattern read with backslash means what the original means with its escape |
| LikePattern.DoubledWildcardEscape | dbms/src/Functions/FunctionsStringSearch.cpp:446-451 | with ESCAPE '%', the literal `%%` is rewritten to a bare `%`, a wildcard |
| LikePattern.RewriteFixedKeepsTokens | dbms/src/Functions/FunctionsStringSearch.cpp:446-451 | with a doubled escape written as backslash plus escape, the rewrite keeps the meaning for every escape character except the backslash |
| ReplaceRegexp.CreateInstructions | dbms/src/Functions/FunctionsStringSearch.cpp:845-885 | the template loop and the check computes the instructions of the template, or BAD_ARGUMENTS naming the first number that reaches num_captures |
| ReplaceRegexp.InstructionsWellFormed | dbms/src/Functions/FunctionsStringSearch.cpp:849-873 | literal instructions are non-empty and never adjacent |
| ReplaceRegexp.EscapedDigit | dbms/src/Functions/FunctionsStringSearch.cpp:853-861 | `\d` becomes a substitution of group d |
| ReplaceRegexp.EscapedChar | dbms/src/Functions/FunctionsStringSearch.cpp:862-864 | `\x` for a non-digit x becomes the literal character x |
| ReplaceRegexp.TrailingBackslash | dbms/src/Functions/FunctionsStringSearch.cpp:851-867 | a backslash at the end of the template stays a literal backslash |
| ReplaceRegexp.RefusedExactly | dbms/src/Functions/FunctionsStringSearch.cpp:876-882 | the template is refused exactly when some instruction number reaches num_captures, naming the first; with num_captures at least 0 only a substitution can be refused |
| ReplaceRegexp.TemplateRoundTrip | dbms/src/Functions/FunctionsStringSearch.cpp:845-885 | any well-formed instruction list, written as a template, is parsed back into itself |

## Left out

- The Volnitsky searcher is modelled by what it answers: the first occurrence at or after a position, else the end. Its hashing and any reads past the end are not modelled.
- Position.SearchOne, Position.VectorVector, Position.ConstantVector: the small-haystack searcher (`LibCASCIICaseSensitiveStringSearcher`) is modelled as the same first-occurrence search over the whole row. A strstr-style search stops at the first zero byte of the haystack or the needle, and that searcher's code is not part of this model, so rows and needles holding zero bytes are not covered on this path (for the row `a\0b` and needle `b` the model answers 3, a strstr search 0).
- Buffers (`PaddedPODArray`, `ColumnString::Chars_t`, `res_offsets`) are modelled as sequences that the methods build and return, not as arrays updated in place. `reserve`, `resize`, `memcpy` and the padding they rely on are not modelled; neither is any aliasing between input and output.
- Integer widths (`size_t`, `UInt64` offsets and answers) are unbounded naturals; no overflow is modelled.
- Bytes: `replaceEscapeChar`, `likePatternIsStrstr`, `getRE2ModeModifiers` and `createInstructions` work on `char`. Their byte strings are modelled as `string`, one character per byte.
- The case-insensitive `position` variants are not part of this model: `PositionCaseInsensitiveASCII`, `PositionCaseInsensitiveUTF8`, their `toLowerIfNeed` and `Poco::UTF8::toLowerInPlace`. They depend on a lower-casing of text that is not modelled.
- Collators are reduced to the two answers the core asks of them, `isCI` and `isBinary` (`Wrappers.Collator`). Collator pattern matchers are not part of this model.
- The regex paths are not part of this model: `MatchImpl` regexp branches, `ExtractImpl`, `ReplaceRegexpImpl::processString` and its `vector`, `vectorFixed` and `constant`. They call RE2, which is not modelled. Only the template parser used by them is modelled.
- The other replace kernels (`vectorNonConstReplacement`, `vectorNonConstNeedleReplacement`, ...) are not part of this model. The column-type dispatch of `FunctionStringReplace::executeImpl` is not part of it either.
- The `pos`, `occ`, `match_type` and `collator` arguments of the `ReplaceStringImpl` kernels are not modelled; those kernels ignore them.
- Exceptions are modelled as `Err` results (`Wrappers.Error`). The message texts are not modelled.
- `createInstructions` keeps each instruction as a pair (number, text), with -1 for literal text. It is modelled as the datatype `ReplaceRegexp.Instruction`, and `ReplaceRegexp.Id` gives the number. `max_captures` is not used by the parser and is not modelled.
- LikePattern.LikePatternIsStrstr: when it answers false, the contract does not state the partly built needle left in `res`, because callers do not read it.
- LikePattern.Tokens: a pattern ending in a lone escape character has no reading in the token model (None). So `RewriteKeepsTokens` and `RewriteFixedKeepsTokens` state for such a pattern only that the rewritten pattern has no reading either.
- `dbms/src/Storages/Page/V2/gc/LegacyCompactor.cpp` and `dbms/src/Flash/Mpp/MPPTask.h` are not part of this model. They are file-system I/O and concurrency.

## Findings

| source | as written | input that shows it | evidently intended | confidence | as-written member | corrected member |
|---|---|---|---|---|---|---|
| dbms/src/Functions/FunctionsStringSearch.cpp:1209-1216 | the search for row i's needle runs over `data_size` bytes, which include the row's zero terminator | one empty row (buffer `[0]`, offsets `[1]`), needle row `"\0"`, replacement `"x"`: the terminator is replaced, the output buffer is `"x"` with offset 1 and the row has no zero byte | search only the row's text and then copy its terminator, as `vector` does | medium; not executed | ReplaceNonConst.TerminatorReplaced | ReplaceNonConst.VectorNonConstNeedleInRow |
| dbms/src/Functions/FunctionsStringSearch.cpp:446-451 | two successive escape characters are written as one bare escape character | pattern `%%` with ESCAPE `%`, which stands for a literal percent sign: it is rewritten to `%`, which then matches any string, e.g. `a` | write the escaped escape character with a backslash in front, so that it stays literal | medium; not executed | LikePattern.DoubledWildcardEscape | LikePattern.RewriteFixedKeepsTokens |
