# Flashcards: a verified model of the deck logic

The flashcards page loads a vocabulary list from comma-separated text. It
tags terms that occur more than once, shuffles the cards and shows them one
at a time, with Next, Back and Flip controls. A lookup button opens the
shown word in one of three online dictionaries. It opens the entry page
when the word looks like a base form, and a web search restricted to the
dictionary's site otherwise.

This project models that logic in Dafny and proves what it promises:

- `text.dfy` (module `Text`): the string primitives the script relies on.
  - `trim` uses the exact ECMAScript whitespace set.
  - `toLowerCase` covers ASCII and the Latin-1 capitals.
  - The letter-or-mark class is approximated.
- `csv.dfy` (modules `Csv`, `CsvProperties`): the tokenizer `parseCSV`.
  - `Csv.Scan` is the scan as a function over the characters still to read.
  - `Csv.ParseCSV` is the source's loop, proved equal to `Parse`.
  - The properties cover quoting, line endings and trimming.
  - A serializer `Serialize` writes rows as quoted fields; parsing the serialization gives the rows back, every cell trimmed.
  - On text without quotes, `parseCSV` agrees with splitting at newlines and commas.
- `records.dfy` (modules `Records`, `RecordsProperties`): dropping the header row and mapping rows to `{term, definition}` records.
- `duplicates.dfy` (modules `Duplicates`, `DuplicatesProperties`, `DuplicatesAsWritten`): `buildTermCounts` and `tagDuplicates`.
  - The counting loop is a method over a `map`.
  - A card is flagged exactly when another card shares its key.
  - A second model follows the script's plain-object table as written (see Findings).
- `deck.dfy` (modules `DeckState`, `DeckProperties`): the page state as a class `Deck`.
  - Its fields are the `flashcards` array, the cursor `currentCard` and `isFlipped`.
  - It has the in-place Fisher–Yates shuffle, Next, Back, Flip, and the load that fills the deck.
- `uri.dfy` (modules `Uri`, `UriProperties`): `encodeURIComponent`, following section 19.2.6.5 of ECMA-262. Percent-decoding recovers the UTF-8 bytes.
- `dictionary.dfy` (modules `Dictionary`, `DictionaryProperties`): the URL templates, the `shouldUseSearch` heuristic, `buildDictUrl`, and the choice of the word to look up.

`Math.random` becomes a sequence `picks`, where `picks[i]` is the partner
drawn for index `i` (`0 <= picks[i] <= i`). The fetched text and
`window.currentWord` are parameters.

## Model

| member | source | states |
|---|---|---|
| Text.Trim | script.js:55 | the trimmed string is empty or starts and ends with a non-whitespace character, and is no longer than the input |
| Text.IsWhitespace | script.js:55 | the characters `trim` removes and `\s` matches: the ECMAScript WhiteSpace and LineTerminator code points |
| Text.LowerChar | script.js:64 | `toLowerCase` on one character: ASCII and Latin-1 capitals move to lower case, every other character is kept |
| Text.Lower | script.js:64 | `toLowerCase` on a string: the same length, each character lower-cased by `LowerChar` |
| Text.IsLetterOrMark | script.js:237 | the classes `\p{L}` and `\p{M}`, restricted to the Latin letters and the combining diacritical marks |
| Text.TrimPieces | script.js:55 | trimming removes exactly a whitespace prefix and a whitespace suffix, leaving the infix that begins and ends with non-whitespace |
| Text.TrimIdempotent | script.js:55 | trimming twice is trimming once |
| Text.TrimKeepsChars | script.js:55 | every character of the trim comes from the input |
| Text.TrimOfNoWhitespace | script.js:55 | a string without whitespace is its own trim |
| Text.StartSpec | script.js:55 | everything before the first kept index is whitespace and the character there is not |
| Text.EndSpec | script.js:55 | everything from the end index on is whitespace and the character before it is not |
| Text.LowerTrimCommute | script.js:64 | lower-casing and trimming commute, so the key `term.trim().toLowerCase()` can be computed in either order |
| Text.LowerCharClasses | script.js:239 | lower-casing keeps whitespace, letters and marks in their class, leaves other characters alone and is idempotent |
| Csv.ParseCSV | script.js:12-56 | the loop (one character per turn, two for a doubled quote) returns `Parse(text)`: the scan, the conditional flush and the trim |
| Csv.Scan | script.js:18-48 | the loop body as a function of the characters still to read: the doubled quote, the closing quote, comma, newline and carriage return, each in its mode |
| Csv.Finish | script.js:49-55 | the conditional flush of the pending cell and row, then the trim of every cell |
| Csv.Parse | script.js:12-56 | `parseCSV`: the scan from the empty state, then `Finish` |
| Csv.TrimRows | script.js:55 | every cell of every row is replaced by its trim, keeping the number of rows and cells |
| CsvProperties.ParseEmpty | script.js:49-55 | empty text gives no rows |
| CsvProperties.ScanKeepsRows | script.js:37-41 | a finished row is never changed or removed by the rest of the scan, and every finished row has a cell |
| CsvProperties.ParseShape | script.js:35-55 | every returned row has at least one cell and every returned cell equals its own trim |
| CsvProperties.ScanConcat | script.js:18-48 | scanning `a + b` is scanning `a`, then `b` from the state `a` left, whenever `b` does not start with a quote |
| CsvProperties.TrailingNewline | script.js:37-41 | a final newline adds no row when a cell or row is pending; after a blank line it adds the row `[""]` |
| CsvProperties.FinalNewlineInQuotes | script.js:22-30 | a final newline inside quotes adds no row when a cell or row is pending, and the row `[""]` otherwise |
| CsvProperties.QuotedCharKept | script.js:22-30 | inside quotes any character but a quote, comma, newline and carriage return included, is appended to the cell and ends neither the cell nor the row; the scan continues from that state |
| CsvProperties.FinalNewlineOutsideQuotes | script.js:37-53 | a final newline outside quotes adds no row when a cell or row is pending, the same as the flush at the end; when nothing is pending it adds the row `[""]`, which the flush would not |
| CsvProperties.ScanEscaped | script.js:23-29 | inside quotes each doubled quote of an escaped field adds exactly one quote, and the closing quote leaves quote mode with the field's text in the cell |
| CsvProperties.ScanQuoted | script.js:23-33 | a quoted field adds exactly its unescaped text to the current cell, commas, newlines and quotes included |
| CsvProperties.ScanLine | script.js:32-41 | a line of quoted fields followed by a newline adds exactly those fields as one row |
| CsvProperties.ScanSerialized | script.js:18-48 | scanning serialized rows appends exactly those rows |
| CsvProperties.ParseSerialize | script.js:12-56 | parsing serialized rows gives back those rows with every cell trimmed |
| CsvProperties.ParseSerializeParse | script.js:12-56 | re-parsing the serialization of a parse result gives the same result |
| CsvProperties.QuotedCommaExample | script.js:22-36 | `a,"b,c",d` followed by a newline gives the one row `a`, `b,c`, `d` |
| CsvProperties.EscapedQuoteExample | script.js:23-25 | `x,"""q"""` followed by a newline gives the row `x`, `"q"` |
| CsvProperties.QuotedCarriageReturnKept | script.js:28-30 | a carriage return inside quotes stays in the cell |
| CsvProperties.QuoteFreeParse | script.js:31-55 | on text without quotes the result is the text without carriage returns, split at newlines (minus an empty last line) and then at commas, trimmed |
| CsvProperties.QuoteFreeCells | script.js:34-43 | on text without quotes no cell holds a comma, a newline, a carriage return or a quote |
| Records.DropHeader | script.js:93-100 | at most row 0 is removed, and the rest is kept in order |
| Records.LooksLikeHeader | script.js:93-99 | row 0 exists, has at least two cells, its lower-cased cell 0 contains `word` or `term` and its lower-cased cell 1 contains `def` or `meaning` |
| RecordsProperties.DropHeaderSpec | script.js:93-100 | row 0 is dropped exactly when it has two cells, its lower-cased cell 0 contains `word` or `term` and its lower-cased cell 1 contains `def` or `meaning`; every other row is kept |
| RecordsProperties.HeaderExamples | script.js:93-99 | `Word, Definition` is dropped as a header; a first row `run, to move fast` is kept |
| Records.EntryTrimmed | script.js:104-107 | a kept row gives a record with a non-empty trimmed term and a trimmed definition |
| Records.Keep | script.js:104 | the filter: the row has a cell and its cell 0 is not blank after trimming |
| Records.MakeEntry | script.js:105-107 | the map: the trimmed cell 0 as term, the trimmed cell 1 or `""` as definition |
| Records.ToRecords | script.js:103-108 | no more records than rows; every term non-empty and trimmed, every definition trimmed |
| RecordsProperties.OneRow | script.js:104-107 | a row is kept exactly when its trimmed cell 0 is not blank; its record is the trimmed cell 0 and the trimmed cell 1, or `""` when there is no cell 1 |
| RecordsProperties.ToRecordsConcat | script.js:103-108 | the mapping works row by row: the records of `a + b` are those of `a` followed by those of `b` |
| RecordsProperties.RecordsFromRows | script.js:103-108 | every record comes from a kept row, and every kept row yields its record |
| Duplicates.Tally | script.js:61-69 | a key is in the table exactly when it is not blank and occurs, and it maps to its number of occurrences |
| Duplicates.Key | script.js:64 | the key of a term: trimmed, then lower-cased |
| Duplicates.BuildTermCounts | script.js:61-69 | the counting loop over the cards builds the table of key counts |
| Duplicates.Tag | script.js:71-77 | tagging keeps the number and order of cards and every term and definition |
| Duplicates.TagDuplicates | script.js:71-77 | `tagDuplicates`: the cards tagged against the table of their own keys; its meaning is `TagDuplicatesSpec` |
| DuplicatesProperties.CountedTwice | script.js:66-75 | a key is counted more than once exactly when another position holds the same key |
| DuplicatesProperties.TagDuplicatesSpec | script.js:71-77 | with a dictionary as the table: length, order, terms and definitions kept, and a card is flagged exactly when its key is not blank and another card has the same key |
| DuplicatesProperties.CaseInsensitiveExample | script.js:64-75 | `Cat`, `dog` and ` cat`: both cats are flagged and the dog is not |
| DuplicatesAsWritten.JsTallyAgrees | script.js:62-66 | with a plain object as the table, every key other than `constructor` and `__proto__` gets the same count as with a dictionary |
| DuplicatesAsWritten.Lookup | script.js:66 | `counts[key]` on a plain object: an own property, else the inherited `constructor` or `__proto__`, else undefined |
| DuplicatesAsWritten.OrZero | script.js:66 | the `or 0` fallback: undefined, NaN, 0 and the empty string become 0, every other value is kept |
| DuplicatesAsWritten.PlusOne | script.js:66 | `v + 1`: numbers add, undefined gives NaN, other values become text with `1` appended |
| DuplicatesAsWritten.Store | script.js:66 | `counts[key] = v`: an assignment to `__proto__` of a value that is not an object is ignored |
| DuplicatesAsWritten.JsTally | script.js:61-69 | `buildTermCounts` with a plain object as the table, one non-blank key at a time |
| DuplicatesAsWritten.TagDuplicatesAsWritten | script.js:71-77 | `tagDuplicates` as written: each card flagged when its looked-up count is a number above 1 |
| DuplicatesAsWritten.AsWrittenAgrees | script.js:71-77 | the script's flag equals the corrected flag on every card whose key is not `constructor` or `__proto__` |
| DuplicatesAsWritten.ConstructorIsText | script.js:66 | once `constructor` has been counted, its entry is a non-empty string |
| DuplicatesAsWritten.ConstructorNeverFlagged | script.js:75 | a card keyed `constructor` is never flagged |
| DuplicatesAsWritten.ProtoMissed | script.js:66-75 | a card keyed `__proto__` is never flagged |
| DuplicatesAsWritten.ConstructorMissed | script.js:61-77 | two cards `constructor` and `Constructor` are not flagged by the script, though the corrected tagging flags both |
| DeckState.Deck.constructor | script.js:5-7 | the page starts with no cards, cursor 0 and the front shown |
| DeckState.Deck.Flip | script.js:180 | the flip flag is negated; cursor and cards unchanged |
| DeckState.Deck.Next | script.js:186 | the cursor becomes `(c + 1) % n` and stays on a card; flip flag and cards unchanged |
| DeckState.Deck.Back | script.js:192 | the cursor becomes `(c - 1 + n) % n` and stays on a card; flip flag and cards unchanged |
| DeckState.Deck.Shuffle | script.js:122-127 | the in-place swap loop leaves the array in the order `FisherYates` gives for the draws |
| DeckState.FisherYates | script.js:122-127 | the order the shuffle leaves for the draws `picks`: the last card swapped with its partner, then the rest shuffled the same way; the same length |
| DeckState.Deck.Exchange | script.js:125 | the destructuring assignment exchanges two cards of the array and nothing else |
| DeckState.Deck.Replace | script.js:103-113 | the global array becomes a new array of the tagged cards, shuffled; cursor and flip flag are kept |
| DeckState.Deck.Load | script.js:88-113 | after a load the array is the shuffled tagged records of the text, every flag truthful; cursor and flip flag are kept, and a cursor left at 0 is valid for the new deck |
| DeckState.PrepareCards | script.js:90-111 | parse, header drop, record mapping, counting and tagging produce `LoadedCards(text)`, with every flag truthful |
| DeckState.LoadedCards | script.js:90-111 | the cards the load handler tags before the shuffle: parse, header drop, records, tagging |
| DeckState.ShuffleKeeps | script.js:122-127 | every property of the deck that survives one exchange survives the whole shuffle |
| DeckState.ShuffleKeepsTruthful | script.js:110-113 | tagging before the shuffle is sound: truthful flags stay truthful after it |
| DeckState.SwapKeepsTruthful | script.js:125 | exchanging two cards keeps every flag truthful |
| DeckProperties.ShufflePermutes | script.js:122-127 | the shuffle keeps the length and the multiset of cards |
| DeckProperties.EveryOrderReachable | script.js:123-125 | every permutation of the cards is the outcome of some valid draws |
| DeckState.NextIndex | script.js:186 | Next keeps the cursor inside the deck |
| DeckState.BackIndex | script.js:192 | Back keeps the cursor inside the deck |
| DeckState.JsRemainder | script.js:186-192 | JavaScript `%` gives NaN exactly for a zero divisor and the ordinary remainder for a non-negative dividend |
| DeckState.JsNext | script.js:186 | `(currentCard + 1) % flashcards.length` on a JavaScript number, NaN staying NaN |
| DeckState.JsBack | script.js:192 | `(currentCard - 1 + flashcards.length) % flashcards.length` on a JavaScript number, NaN staying NaN |
| DeckProperties.NavigationSteps | script.js:186-192 | Next moves one card on and wraps from the last card to the first; Back moves one card back and wraps from the first card to the last |
| DeckProperties.BackUndoesNext | script.js:186-192 | Back undoes Next and Next undoes Back |
| DeckProperties.NextTimesAdds | script.js:186 | up to a full round, `k` presses of Next move the cursor `k` cards on, wrapping once |
| DeckProperties.FullRound | script.js:186 | `n` presses of Next come back to the starting card |
| DeckProperties.CursorArithmetic | script.js:186-192 | on an empty deck the navigation arithmetic gives NaN; inside a non-empty deck it gives `NextIndex` and `BackIndex` |
| DeckProperties.LoadedCardsShape | script.js:90-111 | the loaded cards are at most the parsed rows, with non-empty trimmed terms, non-blank keys, trimmed definitions and truthful flags |
| Uri.Utf8 | script.js:202 | one to four bytes per character, and one byte exactly for ASCII, being the character's code |
| Uri.Encode | script.js:202 | the output is at least as long as the input and holds only unreserved characters and `%` |
| Uri.PercentBytes | script.js:202 | `%HH` with upper-case hexadecimal digits for every byte: three characters per byte |
| Uri.EncodeChar | script.js:202 | an unreserved character is kept, any other becomes the escapes of its UTF-8 bytes |
| UriProperties.HexRoundTrip | script.js:202 | every hexadecimal digit written reads back as its value |
| UriProperties.Utf8Decodes | script.js:202 | the UTF-8 bytes of a character decode back to its code point |
| UriProperties.Utf8Injective | script.js:202 | two different characters never share an encoding |
| UriProperties.DecodePercentBytes | script.js:202 | the `%HH` escapes of a byte string decode to exactly those bytes |
| UriProperties.DecodeEncode | script.js:202 | percent-decoding the encoding of a string gives its UTF-8 bytes |
| UriProperties.EncodeConcat | script.js:202 | the encoding of a concatenation is the concatenation of the encodings |
| UriProperties.EncodeUnreserved | script.js:202 | a string of unreserved characters is its own encoding |
| UriProperties.EncodeExamples | script.js:218-219 | a space is `%20`, a double quote `%22`, a colon `%3A` and `é` is `%C3%A9` |
| Dictionary.HyphenateSpaces | script.js:203 | after the replacement no whitespace is left, and a word without whitespace is unchanged |
| Dictionary.DirectPrefix | script.js:200-213 | the three entry-page templates up to the word: Cambridge learner-english, Oxford Learner's definition/english, Longman dictionary |
| Dictionary.DirectUrl | script.js:200-213 | `DICT_DIRECT`: the prefix, then the encoding of the word with whitespace runs hyphenated and lower-cased |
| Dictionary.SearchSite | script.js:216-229 | the domain each search is restricted to |
| Dictionary.SearchUrl | script.js:216-229 | `DICT_SEARCH`: the Google search address, then the encoding of `site:<domain> "<word>"` |
| Dictionary.ShouldUseSearch | script.js:232-245 | `shouldUseSearch`: true for the empty word, a trimmed word with whitespace or with a character other than a letter, mark or `-`, and a lower-cased word ending in ing, ed, ies, ied, ers, est or s but not in sss, uss, iss or ass; false otherwise |
| Dictionary.BuildDictUrl | script.js:247-253 | `buildDictUrl`: trims the word, then takes the search template when `ShouldUseSearch` holds of it and the entry-page template otherwise |
| Dictionary.LookupWord | script.js:271-280 | a chosen word is non-empty and trimmed |
| DictionaryProperties.LookupWordSpec | script.js:271-280 | the trimmed word on display wins; otherwise the trimmed term of the card under the cursor; no word exactly when both are blank |
| DictionaryProperties.InflectedEndingReduces | script.js:240 | a word looks inflected exactly when it ends in `s`, `ed`, `ing` or `est` |
| DictionaryProperties.ExemptEndsInS | script.js:240 | every exempt word ends in `s` |
| DictionaryProperties.PlainWordDecision | script.js:232-245 | a lower-case word of letters goes to a search exactly when it looks inflected and is not exempt |
| DictionaryProperties.SearchExamples | script.js:233-243 | `running`, `cats`, `bus`, `analysis` and the empty word go to a search |
| DictionaryProperties.DirectExamples | script.js:240-244 | `dog`, `class`, `kiss` and `discuss` go to the entry page |
| DictionaryProperties.WhitespaceGoesToSearch | script.js:236 | a word whose trim holds whitespace goes to a search |
| DictionaryProperties.PhraseGoesToSearch | script.js:234-236 | two words joined by a space go to a search |
| DictionaryProperties.BlankIsNotEmpty | script.js:233-244 | a single space is not the empty word and by itself goes to the entry page |
| DictionaryProperties.CaseIndependent | script.js:236-240 | the decision does not depend on the case of the letters |
| DictionaryProperties.UrlKind | script.js:247-253 | the URL starts with the search address exactly when the heuristic says search, and otherwise starts with the dictionary's entry-page address |
| DictionaryProperties.PrefixesDiffer | script.js:200-229 | each entry-page address is at least as long as the search address and differs from it in the host name |
| DictionaryProperties.DirectUrlShape | script.js:200-213 | on the entry-page path the URL is the prefix followed by the encoded lower-case word, and the encoded part stays one path segment |
| DictionaryProperties.SearchQueryDecodes | script.js:216-229 | the search query decodes to `site:<domain> "<word>"` with the trimmed word |
| DictionaryProperties.EntryPageExample | script.js:201-204 | ` Dog ` in Cambridge opens the learner-english entry page of `dog` |

## Left out

- Fetching the CSV, the promise chain and the error message (script.js:82-120) are network I/O. The fetched text is the parameter of `Load`.
- `displayCard` (script.js:132-167) only builds DOM nodes. The `window.currentWord` it sets is the `currentWord` parameter of `LookupWord`.
- The event wiring, `stopPropagation`, `alert` and `window.open` (script.js:173-194, 256-285) are UI plumbing. The lookup is modelled as the word it picks and the URL it builds.
- `Math.random` (script.js:124): the draws are the `picks` parameter. Uniformity is not modelled. `EveryOrderReachable` shows that no order is excluded.
- `Text.LowerChar`: `toLowerCase` is modelled for ASCII and the Latin-1 capitals only. Every other character is left unchanged, including the capitals of Latin Extended-A and -B that `IsLetterOrMark` accepts, and the characters whose lower case changes length.
- `Text.IsLetterOrMark`: `\p{L}` and `\p{M}` are approximated by the ASCII letters, Latin-1, Latin Extended-A and -B, the IPA letters and the combining diacritical marks.
- `Uri.Encode`: characters are Unicode scalar values. The lone surrogates on which `encodeURIComponent` throws do not arise.
- Dictionary keys: the provider is a closed datatype, so an unknown `dictKey` cannot occur. In the script it throws a TypeError at script.js:250-252.
- `DeckState.Deck.Next`, `DeckState.Deck.Back`: both require a non-empty deck. On an empty deck the script's cursor becomes NaN. `JsNext`, `JsBack` and `CursorArithmetic` model that case on values.
- `DeckState.Deck.Load`: the cursor and the flip flag are kept, because the load handler does not reset them. Descriptions of the page that say it does were not followed.
- `DeckState.Deck.Load`, `DeckState.PrepareCards`, `Duplicates.BuildTermCounts`: the count table is a map, the corrected table of the Findings row. "Every flag truthful" holds for this model. In the script a card keyed `constructor` or `__proto__` is never flagged, as `DuplicatesAsWritten.AsWrittenAgrees` and `DuplicatesAsWritten.ConstructorMissed` show.
- `CsvProperties.TrailingNewline`: a trailing newline adds no row only when a cell or row is pending. After a blank line the script yields the row `[""]`, which the record filter then drops.
- `CsvProperties.QuoteFreeCells`: "no carriage return in any cell" is proved for text without quotes only. Inside quotes the script keeps a carriage return, as `QuotedCarriageReturnKept` shows.
- `DictionaryProperties.SearchExamples`: `bus` and `analysis` go to a search, because the exemption `(ss|us|is|as)s$` needs three letters. Descriptions that say they go to the entry page were not followed.

## Findings

| source | as written | input that shows it | evidently intended | confidence | as-written member | corrected member |
|---|---|---|---|---|---|---|
| script.js:62-75 | the count table is a plain object `{}`, so `counts["constructor"]` starts as the inherited function `Object` and `counts["__proto__"]` as `Object.prototype`. `+ 1` turns them into strings and `> 1` is then false; an assignment to `__proto__` is ignored | two cards with terms `constructor` and `Constructor` | both cards flagged as duplicates, as for any other repeated term | not executed | DuplicatesAsWritten.ConstructorMissed | DuplicatesProperties.TagDuplicatesSpec |
