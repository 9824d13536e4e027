# kindle-ordbokene: a verified model of the dictionary pipeline core

This project models the deterministic core of kindle-ordbokene. That program reads article pages of the
Norwegian Bokmål dictionary at ordbokene.no and turns them into a Kindle dictionary. The model covers
four pieces.

- **Entry model and renderers** (`EntryModel`, `EntryRender`).
  - `DictionaryEntry` construction: the headword and the part of speech are lower-cased, the part of
    speech must be one of nine values, and a noun needs a truthy gender.
  - `to_lowercase`, as the recursive function it is, over strings, lists, dicts and other values.
  - The four inflection dataclasses. Their fields are bound from keyword arguments, as the generated
    dataclass `__init__` binds them. Then `__post_init__` applies `to_lowercase` to each field. A
    field's value is a string or `None`, so only the string branch of `to_lowercase` is reached that
    way. The list and dict branches are proved about `to_lowercase` on its own.
  - The three string builders: `dictionary_entry_to_html` (a standalone page),
    `dictionary_entry_to_xhtml` (a Kindle `idx:entry`) and `generate_inflections` (the `idx:infl`
    block).
- **Headword and verb-inflection extraction** (`ParseHtml`).
  - `extract_word_and_pos` removes the subheader span from the tree, then reads the headword.
  - The two fixed-shape verb tables are decoded with the positional cell clean-ups.
  - The merge into `VerbInflections`.
  - Every structural violation is its own `ParseFailure`. Each one carries the count that was observed.
- **Tag normaliser and list flattener** (`CleanHtml`).
  - `remove_comments`, `clean_tags`, `simplify_list` and `clean_document`, as in-place passes over a
    `Soup`.
  - Both generations of the normaliser are modelled, selected by `Variant`:
    - the package's, which keeps `class`;
    - the earlier top-level script's, which unwraps only attribute-less spans and strips every
      attribute.
- **Page specification expansion** (`Scrape`). A specification such as `"1,2,10-20"` becomes page
  indices, then article URLs, then a trace of `download_page` actions.

The supporting modules are:

- `Wrappers`: `Option` and `Result`.
- `Strings`: the Python `str` operations the code relies on, written out on `seq<char>`:
  - `strip` over Python's whitespace set;
  - `lower` and `capitalize` over ASCII and Latin-1;
  - `split`, `join` and `replace`;
  - `str(int)` and `int(str)`.
- `Html`: the parsed document.
  - A tree of text, comment and element nodes.
  - `find`, `find_all`, `stripped_strings` and `get_text(strip=True)`.
  - The `Soup` object, which owns the tree and hands out identities to new tags.

Each tag carries an `id` that stands for its object identity. A saved `find_all` result can then be
followed across mutations of the tree, as the document pass does.

Where the code mutates, the model mutates:

- `CleanHtml.CleanTags` computes the cleaned tag by a loop over its children, with a recursive call
  per child. It returns the new tag; `CleanHtml.CleanById` writes it back into the `Soup`.
- `RemoveComments`, `CleanBasicElements`, `SimplifyLists`, `CleanDocument` and
  `ParseHtml.ExtractWordAndPos` modify the `Soup`.
- The renderers build their strings with `+=` loops.
- The table decoders fill their dict in a loop.

Each such method is proved equal to a specification function. The properties the code promises are
proved as lemmas about those functions.

The normaliser is not idempotent. Children spliced in by an unwrap are never rechecked against their
new parent. For example, in `td > span > td` the inner `td` is unwrapped only on a second run. The
model proves no idempotence. It proves `CleanHtml.CleanChildrenTidy` instead: every tag the normaliser
leaves has the shape of a kept tag.

## Model

| member | source | states |
|---|---|---|
| Strings.Strip | mkdict/parse_html.py:30-31 | `str.strip()`: the result has no Python whitespace at either end and is no longer than the input |
| Strings.StripLeft | mkdict/parse_html.py:30-31 | `lstrip()`: no longer than the input, and a non-empty result does not start with whitespace |
| Strings.StripLeftSplits | mkdict/parse_html.py:30-31 | `lstrip()` removes a prefix made only of whitespace and keeps the rest as it is |
| Strings.StripLeftEmptyIff | mkdict/parse_html.py:30-31 | `lstrip()` yields the empty string exactly when every character is whitespace |
| Strings.StripRight | mkdict/parse_html.py:30-31 | `rstrip()`: no longer than the input, and a non-empty result does not end with whitespace |
| Strings.StripRightSplits | mkdict/parse_html.py:30-31 | `rstrip()` removes a suffix made only of whitespace and keeps the rest as it is |
| Strings.StripRightEmptyIff | mkdict/parse_html.py:30-31 | `rstrip()` yields the empty string exactly when every character is whitespace |
| Strings.StripEmptyIff | mkdict/clean_html.py:40 | stripping yields the empty string exactly when every character is whitespace (why `stripped_strings` drops blank strings) |
| Strings.StripTrimmed | mkdict/parse_html.py:30-31 | a string without whitespace at its ends is left as it is |
| Strings.StripIdempotent | mkdict/parse_html.py:26-31 | stripping twice is stripping once, so the final strips of the word and the part of speech change nothing |
| Strings.StripKeeps | mkdict/parse_html.py:49 | stripping introduces no character |
| Strings.Lower | mkdict/dict_entry.py:94-95 | `str.lower()`: same length, each character mapped by the lower-case map |
| Strings.LowerIdempotent | mkdict/dict_entry.py:28-29 | lower-casing twice is lower-casing once |
| Strings.Capitalize | mkdict/dict_entry.py:169 | `str.capitalize()`: same length, first character upper-cased, the rest lower-cased |
| Strings.ReplaceChar | mkdict/dict_entry.py:169 | `replace("_", " ")`: every `_` becomes a space, every other character stays |
| Strings.Split | mkdict/scrape.py:67 | `str.split(c)`: at least one piece, and no piece contains `c` |
| Strings.Join | mkdict/clean_html.py:41 | `sep.join(parts)`: empty for no part, the part itself for one, and otherwise at least the first part and a separator |
| Strings.JoinSplit | mkdict/scrape.py:67 | joining the pieces of a split with the separator gives back the string |
| Strings.SplitJoin | mkdict/scrape.py:72 | splitting a join of separator-free pieces gives back the pieces |
| Strings.SplitAbsent | mkdict/scrape.py:76-78 | a string without the separator splits into itself alone |
| Strings.SplitPresent | mkdict/scrape.py:70-72 | a string with the separator splits into at least two pieces |
| Strings.SplitAtFirst | mkdict/scrape.py:72 | the first piece is everything before the first separator |
| Strings.LastPiece | mkdict/scrape.py:61 | `split('/')[-1]` is everything after the last separator |
| Strings.FirstPiece | mkdict/parse_html.py:27 | `split(' ')[0]` is a prefix of the string, ended by the separator when shorter |
| Strings.FirstPieceOfLonger | mkdict/parse_html.py:49 | text after the first separator does not change the first piece |
| Strings.JoinTrimmed | mkdict/parse_html.py:26 | joining non-empty stripped strings gives a stripped string, non-empty when there is a piece |
| Strings.NatToString | mkdict/scrape.py:74 | `str(n)` of a natural number is non-empty and all digits |
| Strings.NatToStringValue | mkdict/scrape.py:78 | `str(n)` is a decimal literal whose value is `n` |
| Strings.DecimalLiteralStartsWithDigit | mkdict/scrape.py:78 | a decimal literal starts with a digit (an underscore may only sit between digits) |
| Strings.IntToString | mkdict/dict_entry.py:216 | `str(i)`: a minus sign for a negative number, then the digits of its magnitude; its contract is in `Strings.NatToStringValue`, `Strings.IntToStringChars`, `Strings.StrippedToString` and `Strings.ParseIntToString` |
| Strings.ParseInt | mkdict/scrape.py:72-78 | `int(s)`: strip, then an optional sign and a decimal literal, or `None` for the `ValueError`; its contract is in `Strings.ParseStripped`, `Strings.ParseIntLiteral`, `Strings.ParseIntNegativeLiteral` and `Strings.ParseIntToString` |
| Strings.ParseIntLiteral | mkdict/scrape.py:78 | `int()` of a decimal literal is its value |
| Strings.ParseIntNegativeLiteral | mkdict/scrape.py:72 | `int()` of a minus sign followed by a literal is the negated value |
| Strings.ParseIntToString | mkdict/scrape.py:74-79 | `int(str(i)) == i` for every integer |
| Strings.ParseStripped | mkdict/scrape.py:72 | `int()` after stripping: nothing converts from empty text, and a converted text ends with a digit and starts with a digit or a sign |
| Strings.ParseStrippedLiteral | mkdict/scrape.py:78 | a decimal literal with nothing to strip converts to its value |
| Strings.ParseStrippedNegative | mkdict/scrape.py:72 | a minus sign and a decimal literal convert to the negated value |
| Strings.LiteralTrimmed | mkdict/scrape.py:78 | a decimal literal has nothing to strip |
| Strings.NegativeLiteralTrimmed | mkdict/scrape.py:72 | a minus sign and a decimal literal have nothing to strip |
| Strings.StrippedToString | mkdict/dict_entry.py:216 | `str(i)` has nothing to strip and converts back to `i` |
| Strings.DigitChar | mkdict/dict_entry.py:216 | each digit of `str(i)` is a decimal digit with the value it stands for |
| Strings.IntToStringChars | mkdict/dict_entry.py:216 | `str(i)` holds only digits and `-`, so it contains no quote |
| Strings.TakeUntil | mkdict/dict_entry.py:216 | the text up to a character is a prefix of the text and does not contain that character |
| Strings.TakeUntilPrefix | mkdict/dict_entry.py:216 | reading up to the quote after a quote-free id gives back the id |
| Strings.DropThrough | mkdict/parse_html.py:40 | the text after the first occurrence of a character is shorter than the text, or both are empty |
| Strings.DropThroughPrefix | mkdict/parse_html.py:40 | the text after the first `(` of a lead without `(` is everything after that bracket |
| Html.FindAll | mkdict/parse_html.py:38 | every node `find_all` returns matches the selector; `Html.FindAllComplete` gives the converse |
| Html.FindAllComplete | mkdict/parse_html.py:38 | every matching node below the tag, at any depth, is among the results of `find_all` |
| Html.FindFirst | mkdict/parse_html.py:13 | `find` returns a valid path to a matching node, or nothing |
| Html.FindFirstIsFirstOfAll | mkdict/parse_html.py:13-14 | `find` finds nothing exactly when `find_all` is empty, and otherwise finds `find_all`'s first node |
| Html.ChildElements | mkdict/clean_html.py:38 | `find_all(name, recursive=False)`: only direct child tags of that name, never more than the children; `Html.ChildElementsComplete` gives the converse |
| Html.ChildElementsComplete | mkdict/clean_html.py:38 | every direct child tag of that name is among the results |
| Html.Words | mkdict/clean_html.py:58 | the classes of a `class` value are non-empty words |
| Html.WordLength | mkdict/clean_html.py:58 | a word runs up to the first whitespace character |
| Html.StrippedStrings | mkdict/clean_html.py:40 | `stripped_strings`: the text strings below the tag in document order, comments left out, each stripped, blank ones dropped; its contract is in `Html.StripAllTrimmed`, `Html.StrippedStringsAppend` and `Html.StrippedStringsElement` |
| Html.GetText | mkdict/parse_html.py:23-26 | `get_text(separator=sep, strip=True)`: the stripped strings joined by the separator; its contract is in `Html.GetTextTrimmed` |
| Html.StripAllTrimmed | mkdict/clean_html.py:40 | each of the stripped strings is non-empty and stripped |
| Html.StrippedStringsAppend | mkdict/clean_html.py:40 | the stripped strings of a concatenation are the two parts' stripped strings in order |
| Html.StrippedStringsElement | mkdict/parse_html.py:26 | a tag's stripped strings are those of its children |
| Html.TextsOfAppend | mkdict/clean_html.py:40 | the strings of a concatenation are the two parts' strings, in document order |
| Html.TextsOf | mkdict/clean_html.py:40 | the text strings below the nodes in document order, comments left out; its contract is in `Html.TextsOfAppend` and `Html.StrippedStringsElement` |
| Html.StripAllAppend | mkdict/clean_html.py:40 | stripping and dropping blank strings works part by part |
| Html.StrippedStringsCons | mkdict/clean_html.py:40 | the stripped strings of a list are its head's, then its tail's |
| Html.StrippedStringsAround | mkdict/clean_html.py:83 | the stripped strings of a list with one node replaced are those before it, the new node's and those after it |
| Html.StrippedStringsSwap | mkdict/clean_html.py:83 | swapping a node for one with the same stripped strings keeps the list's |
| Html.GetTextTrimmed | mkdict/parse_html.py:23 | `get_text(strip=True)` is stripped |
| Html.Shallow | mkdict/clean_html.py:12 | a node on its own has no children |
| Html.EverywhereSingle | mkdict/clean_html.py:12 | a property holds throughout one node iff it holds of the node and throughout its children |
| Html.EverywhereAppend | mkdict/clean_html.py:12 | a property holds throughout a concatenation iff it holds throughout both parts |
| Html.EverywhereAt | mkdict/clean_html.py:77 | a property that holds throughout the tree holds throughout every subtree `find_all` reaches |
| Html.EverywhereRemoveAt | mkdict/parse_html.py:22 | `extract()` keeps any property that held of every node |
| Html.IdsBelowRemoveAt | mkdict/parse_html.py:22 | `extract()` brings in no tag identity |
| Html.IdsBelowMono | mkdict/clean_html.py:34-36 | identities below a counter stay below it when the counter advances |
| Html.IdsBelowElement | mkdict/clean_html.py:34-36 | a tag's identities are below the counter iff its own is and its children's are |
| Html.PathAppend | mkdict/parse_html.py:18 | a `find` inside the node a first `find` reached gives a path from the top: the concatenated path leads to the same node |
| Html.ReplaceAt | mkdict/clean_html.py:83 | `replace_with` over a path keeps the length of the top-level list |
| Html.ReplaceAtAt | mkdict/clean_html.py:83 | after `replace_with`, the node at that path is the replacement |
| Html.ReplaceAtElsewhere | mkdict/clean_html.py:83 | `replace_with` disturbs nothing else: every path that parts ways with the replaced one still leads to the same node |
| Html.EverywhereReplaceAt | mkdict/clean_html.py:83 | a replacement that has a property everywhere keeps it true of the whole tree |
| Html.StrippedStringsReplaceAt | mkdict/clean_html.py:78 | replacing a node by one with the same stripped strings keeps the document's stripped strings |
| Html.IdsBelowReplaceAt | mkdict/clean_html.py:83 | a replacement whose identities are below the counter keeps the document's below it |
| Html.FindById | mkdict/clean_html.py:77-78 | the tag with a given identity is found at a valid path, or nothing is found; `Html.FindByIdComplete` gives the converse |
| Html.FindByIdComplete | mkdict/clean_html.py:77-78 | a tag with the identity below the document is always found, so finding nothing means no tag in the document has it |
| Html.RemoveBelow | mkdict/parse_html.py:18-22 | extracting a node inside the lookup span leaves that span in place, with just that node gone |
| Html.RemoveAt | mkdict/parse_html.py:22 | `extract()`: the tree with the node at the path taken out; its contract is in `Html.EverywhereRemoveAt`, `Html.IdsBelowRemoveAt`, `Html.RemoveBelow` and `CleanHtml.RemoveOneComment` |
| Html.Soup.Allocate | mkdict/clean_html.py:34-36 | `new_tag` identities: the next `n` values of the counter, with the document unchanged |
| ParseHtml.SubheaderPath | mkdict/parse_html.py:13-20 | the path found is valid and leads to a `span.subheader` |
| ParseHtml.WordAndPosFound | mkdict/parse_html.py:22-33 | once both spans are found, the subheader path is the two paths joined, and the result is the headword of the lookup span without the subheader and the stripped text of the subheader |
| ParseHtml.HeadwordOf | mkdict/parse_html.py:26-30 | the headword is the first space-separated token of the text, so it has no space and is stripped |
| ParseHtml.WordAndPosOf | mkdict/parse_html.py:10-33 | fails with the no-word error exactly when there is no `span.lookup`; the word has no space, and it and the part of speech are stripped |
| ParseHtml.WordAndPosErrors | mkdict/parse_html.py:13-20 | the no-word error iff `find` finds no `span.lookup`; the no-part-of-speech error iff the lookup span holds no `span.subheader`; success iff the subheader exists |
| ParseHtml.ExtractWordAndPos | mkdict/parse_html.py:10-33 | returns `WordAndPosOf` of the tree as it was; on success the subheader has been removed from the document, on failure the document is unchanged |
| ParseHtml.Message | mkdict/parse_html.py:15-104 | the text each `ParseError` is raised with, the count observed written in brackets; its contract is in `ParseHtml.MessageReportsCount` |
| ParseHtml.CountMessageReports | mkdict/parse_html.py:40 | the number between the brackets of a count message converts back to the count it was built from |
| ParseHtml.LeadsUnbracketed | mkdict/parse_html.py:40 | the row, cell and table messages have no `(` before the count |
| ParseHtml.MessageReportsCount | mkdict/parse_html.py:40-104 | every count error's message reports the count that was found: rows, cells or tables |
| ParseHtml.CellText | mkdict/parse_html.py:48-49 | a cell's form has no `+` in it and is stripped |
| ParseHtml.DropPrefix | mkdict/parse_html.py:52-53 | dropping a prefix introduces no character |
| ParseHtml.Infinitive | mkdict/parse_html.py:50-54 | the infinitive is stripped, and has no `+` when its cell had none |
| ParseHtml.InfinitiveExample | mkdict/parse_html.py:52-54 | `å gå` becomes `gå` |
| ParseHtml.Imperative | mkdict/parse_html.py:61-64 | the imperative is stripped, and has no `+` when its cell had none |
| ParseHtml.ImperativeExample | mkdict/parse_html.py:62-64 | `gå!` becomes `gå` |
| ParseHtml.DefiniteParticiple | mkdict/parse_html.py:87-91 | the definite participle is stripped, and has no `+` when its cell had none |
| ParseHtml.DefiniteParticipleExample | mkdict/parse_html.py:89-91 | `den/det kast` becomes `kast` |
| ParseHtml.RowValues | mkdict/parse_html.py:47-48 | one form per cell |
| ParseHtml.CellTexts | mkdict/parse_html.py:48 | one text per cell |
| ParseHtml.ColumnValues | mkdict/parse_html.py:50-64 | one cleaned form per column |
| ParseHtml.BasicValue | mkdict/parse_html.py:50-64 | the infinitive (column 0) and the imperative (column 4) are cleaned further, the other columns kept; its contract is in `ParseHtml.ColumnValueClean`, and `ParseHtml.CleanColumn` is proved against it |
| ParseHtml.ParticipleValue | mkdict/parse_html.py:83-95 | the definite participle (column 2) is cleaned further, the other columns kept; its contract is in `ParseHtml.ColumnValueClean`, and `ParseHtml.CleanColumn` is proved against it |
| ParseHtml.RowValuesClean | mkdict/parse_html.py:47-64 | every form read from a row is stripped and has no `+` |
| ParseHtml.ColumnValueClean | mkdict/parse_html.py:80-95 | every column's clean-up, basic or participle, gives a stripped form without `+` |
| ParseHtml.FormsUpToContents | mkdict/parse_html.py:54-64 | after `n` assignments the keys are the first `n` names, and with distinct names each key holds its own column's form |
| ParseHtml.FormsUpTo | mkdict/parse_html.py:47-64 | the dict after the first `n` assignments `verb_forms[name] = form`; its contract is in `ParseHtml.FormsUpToContents`, `ParseHtml.FormsUpToValues` and `ParseHtml.FullForms`, and `ParseHtml.FillForms` is proved against it |
| ParseHtml.FormsUpToValues | mkdict/parse_html.py:54-64 | every value in the dict is one of the assigned forms |
| ParseHtml.BasicNamesDistinct | mkdict/parse_html.py:54-64 | the five basic keys are distinct |
| ParseHtml.ParticipleNamesDistinct | mkdict/parse_html.py:84-95 | the five participle keys are distinct |
| ParseHtml.DataCells | mkdict/parse_html.py:38-45 | success gives exactly five `td` cells; a failure is a row-count error reporting a count other than the expected one, or a cell-count error reporting a count other than five |
| ParseHtml.BasicFormsContents | mkdict/parse_html.py:36-65 | the basic table fails exactly when its shape is wrong, and otherwise has exactly the five basic keys, each holding its own column's form |
| ParseHtml.ParticipleFormsContents | mkdict/parse_html.py:68-96 | the same for the participle table, with three rows and the five participle keys |
| ParseHtml.BasicForms | mkdict/parse_html.py:36-65 | the basic table fails exactly when its rows or cells are wrong, with that error; otherwise every form is stripped and has no `+` |
| ParseHtml.ParticipleForms | mkdict/parse_html.py:68-96 | the same for the participle table, with three rows |
| ParseHtml.CleanColumn | mkdict/parse_html.py:49-64 | the loop body's clean-up is the column's clean-up |
| ParseHtml.FillForms | mkdict/parse_html.py:47-64 | the dict the `enumerate` loop fills is `FormsUpTo` of the column forms |
| ParseHtml.ParseVerbBasicInflections | mkdict/parse_html.py:36-65 | `parse_verb_basic_inflections` returns `BasicForms` of the table |
| ParseHtml.ParseVerbParticipleInflections | mkdict/parse_html.py:68-96 | `parse_verb_participle_inflections` returns `ParticipleForms` of the table |
| ParseHtml.VerbFormsFirstTwo | mkdict/parse_html.py:101 | tables after the second are never looked at |
| ParseHtml.VerbFormsTooFewTables | mkdict/parse_html.py:103-104 | fewer than two tables is the table-count error, reporting how many there are |
| ParseHtml.VerbFieldNames | mkdict/parse_html.py:116-117 | the basic keys followed by the participle keys are the fields of `VerbInflections`, in order |
| ParseHtml.NamesDisjoint | mkdict/parse_html.py:116 | no basic key is a participle key |
| ParseHtml.UnionOfTables | mkdict/parse_html.py:116 | the union of two dicts with disjoint keys has both key sets and keeps every value of both |
| ParseHtml.UnionKeys | mkdict/parse_html.py:116 | the keys of the union are the keys of the two dicts |
| ParseHtml.UnionLeft | mkdict/parse_html.py:116 | the left dict's keys keep their values when the right's are disjoint |
| ParseHtml.UnionRight | mkdict/parse_html.py:116 | the right dict's keys keep their values |
| ParseHtml.UnionFrom | mkdict/parse_html.py:116 | every value of the union comes from one of the two dicts |
| ParseHtml.MergedContents | mkdict/parse_html.py:110-116 | the merged dict has exactly the ten verb fields, each basic and participle key holding its own column's form, and every form is stripped and free of `+` |
| ParseHtml.MergedForms | mkdict/parse_html.py:110-116 | the merge succeeds iff both tables parse; otherwise it is the basic table's error, or the participle table's when the basic one parsed, and never a table-count error |
| ParseHtml.VerbFormsOfTables | mkdict/parse_html.py:101-116 | a table-count error, reporting how many tables there are, exactly when there are fewer than two; otherwise the merge of the first two |
| ParseHtml.VerbForms | mkdict/parse_html.py:101-116 | the forms of the first two `table` tags found in document order; its contract is in `ParseHtml.VerbFormsOfTables`, `ParseHtml.VerbFormsFirstTwo` and `ParseHtml.VerbFormsTooFewTables`, and `ParseHtml.ExtractVerbInflections` is proved against it |
| ParseHtml.FormsOfValues | mkdict/parse_html.py:116 | merging the two five-column dicts gives the ten verb fields with their columns' forms |
| ParseHtml.FormsOfNames | mkdict/parse_html.py:116 | the same for any two disjoint lists of distinct names |
| ParseHtml.FullForms | mkdict/parse_html.py:47-64 | a full row of assignments over distinct names maps each name to its own value, and only those names |
| ParseHtml.CleanFrom | mkdict/parse_html.py:49 | a dict whose values all come from clean forms holds only clean forms |
| ParseHtml.NewVerbInflections | mkdict/parse_html.py:117 | `VerbInflections(**forms)` with exactly the ten keys is well formed, and each field is the lower-cased form |
| ParseHtml.ExtractVerbInflections | mkdict/parse_html.py:99-119 | the first error of the tables is returned; otherwise a well-formed `VerbInflections` whose every field is the lower-cased merged form |
| EntryModel.Keys | mkdict/dict_entry.py:31 | the keys of a dict, in order, one per entry |
| EntryModel.DictSet | mkdict/dict_entry.py:31 | `d[k] = v`: an existing key keeps its place and takes the new value, a new key goes last; its contract is in `EntryModel.DictSetKeys`, `EntryModel.DictSetDistinct`, `EntryModel.DictSetNew` and `EntryModel.DictSetOrigin` |
| EntryModel.DictSetKeys | mkdict/dict_entry.py:31 | after `d[k] = v` the keys are the old keys and `k` |
| EntryModel.DictSetDistinct | mkdict/dict_entry.py:31 | `d[k] = v` keeps the keys distinct |
| EntryModel.DictSetNew | mkdict/dict_entry.py:31 | a new key goes last |
| EntryModel.DictSetOrigin | mkdict/dict_entry.py:31 | every entry afterwards is the new pair or an old entry |
| EntryModel.ToLowercase | mkdict/dict_entry.py:26-34 | `to_lowercase` keeps the kind of value and the length of strings and lists, and returns `None` and integers as they are |
| EntryModel.LowercaseItems | mkdict/dict_entry.py:32-33 | the list comprehension keeps the length and lower-cases each element in place |
| EntryModel.LowercasePairs | mkdict/dict_entry.py:31 | one lower-cased pair per entry, in order |
| EntryModel.LowercaseEntries | mkdict/dict_entry.py:30-31 | the dict comprehension: each entry, key and value lower-cased, inserted in order; its contract is in `EntryModel.LowercaseEntriesKeys`, `EntryModel.LowercaseEntriesPointwise`, `EntryModel.EntriesOrigin` and `EntryModel.EntriesIdempotent` |
| EntryModel.LowercaseEntriesKeys | mkdict/dict_entry.py:30-31 | the lower-cased dict has distinct keys, which are exactly the lower-cased keys |
| EntryModel.LowercaseEntriesPointwise | mkdict/dict_entry.py:30-31 | when no two keys collide after lower-casing, the dict is lower-cased entry by entry, in order |
| EntryModel.ToLowercaseDictPointwise | mkdict/dict_entry.py:30-31 | the same, stated for `to_lowercase` of a dict |
| EntryModel.EntriesOrigin | mkdict/dict_entry.py:31 | every entry of the lower-cased dict is a lower-cased entry of the input |
| EntryModel.ToLowercaseIdempotent | mkdict/dict_entry.py:26-34 | `to_lowercase` applied twice equals it applied once, at every nesting depth |
| EntryModel.ItemsIdempotent | mkdict/dict_entry.py:32-33 | the same for lists |
| EntryModel.PairIdempotent | mkdict/dict_entry.py:31 | the same for a dict entry |
| EntryModel.EntriesIdempotent | mkdict/dict_entry.py:30-31 | the same for dicts |
| EntryModel.RequiredCount | mkdict/dict_entry.py:56-61 | the fields without a default are a prefix of the field list |
| EntryModel.FieldNames | mkdict/dict_entry.py:43-80 | the fields of each inflection dataclass are distinct |
| EntryModel.MissingRequired | mkdict/dict_entry.py:42-80 | the names reported missing are not given, and none is reported exactly when every required field is given |
| EntryModel.BindKeywords | mkdict/dict_entry.py:42-80 | binding succeeds iff every keyword is a field and every required field is given; then each field holds its keyword's value, or `None` |
| EntryModel.PostInitInflections | mkdict/dict_entry.py:36-39 | `__post_init__` keeps every attribute's name and sets it to `to_lowercase` of its value |
| EntryModel.LoweredFields | mkdict/dict_entry.py:36-39 | after `__post_init__` each field is the lower-cased keyword value, or `None` when it was left out |
| EntryModel.LoweredInflections | mkdict/dict_entry.py:36-61 | the constructed table is well formed, and each field is the lower-cased keyword value, or `None` |
| EntryModel.NewInflections | mkdict/dict_entry.py:36-80 | constructing a variant fails exactly when binding fails, with binding's error; otherwise the table is well formed, and unset optional fields stay `None` while the rest are lower-cased |
| EntryModel.NewEntry | mkdict/dict_entry.py:93-102 | construction succeeds iff the lower-cased part of speech is one of the nine and a noun has a truthy gender; the word and the part of speech are lower-cased, the gender and everything else are stored unchanged, and each failure is its own error |
| EntryModel.NewEntryOfValid | mkdict/dict_entry.py:93-102 | re-constructing a valid entry gives back the same entry |
| EntryModel.ValueErrorMessage | mkdict/dict_entry.py:97-102 | the invalid part-of-speech message quotes the rejected part of speech; the two messages are told apart by their first letter |
| EntryModel.FrameCancel | mkdict/dict_entry.py:97 | text framed the same way on both sides determines what it frames |
| EntryModel.ValueErrorMessageInjective | mkdict/dict_entry.py:97-102 | different construction errors give different messages, so the rejected part of speech can be read back |
| EntryRender.DisplayName | mkdict/dict_entry.py:169 | a humanised field name keeps its length and has no `_` after its first character |
| EntryRender.FieldNamesPublic | mkdict/dict_entry.py:168 | no dataclass field starts with `_`, so none is skipped |
| EntryRender.InflectionLinesPublic | mkdict/dict_entry.py:167-169 | one `li` per public attribute, in order |
| EntryRender.InflectionLines | mkdict/dict_entry.py:167-169 | no more list items than attributes |
| EntryRender.InflectionLinesOfTable | mkdict/dict_entry.py:166-170 | a table renders one `inflection-item` per field, set or not, with the capitalised humanised name and the value printed verbatim |
| EntryRender.IformLinesSound | mkdict/dict_entry.py:283-285 | every `idx:iform` comes from a field with a truthy value |
| EntryRender.IformLinesComplete | mkdict/dict_entry.py:283-285 | every public field with a truthy value has its `idx:iform` |
| EntryRender.IformLines | mkdict/dict_entry.py:283-285 | no more index forms than attributes |
| EntryRender.ListedPositionsSpan | mkdict/dict_entry.py:283-284 | the positions of the listed attributes are in range, strictly increasing, and include every public attribute with a truthy value |
| EntryRender.IformLinesAtPositions | mkdict/dict_entry.py:283-285 | one index form per listed position, the `k`-th being that of the `k`-th listed attribute |
| EntryRender.IformLinesInOrder | mkdict/dict_entry.py:283-285 | the index forms are exactly those of the public attributes with a truthy value, one each, in attribute order |
| EntryRender.InflectionIndex | mkdict/dict_entry.py:276-288 | the `idx:infl` block is empty exactly when the entry has no inflections |
| EntryRender.GenderBlock | mkdict/dict_entry.py:161-162 | the gender div is emitted iff the gender is truthy |
| EntryRender.InflectionsBlock | mkdict/dict_entry.py:165-170 | the inflections div is emitted iff inflections are present |
| EntryRender.ExampleLines | mkdict/dict_entry.py:178-179 | one example `li` per example, in order: the `i`-th line wraps the `i`-th example |
| EntryRender.Items | mkdict/dict_entry.py:174-195 | each loop over a list emits one line per element, in order: the `i`-th line is that of the `i`-th element |
| EntryRender.ItemsSnoc | mkdict/dict_entry.py:174-195 | one more element adds its line at the end |
| EntryRender.ExampleList | mkdict/dict_entry.py:176-180 | the example sub-list is emitted iff there are examples |
| EntryRender.DefinitionLines | mkdict/dict_entry.py:174-180 | one item per definition, in order: the `i`-th item is the `i`-th definition's |
| EntryRender.DefinitionsBlock | mkdict/dict_entry.py:173-181 | the definitions div, always emitted, holding one item per definition; its contract is in `EntryRender.DefinitionLines` and `EntryRender.BodyPrefixDefinitions` |
| EntryRender.ExpressionLines | mkdict/dict_entry.py:186-195 | one item per expression, in order: the `i`-th item is the `i`-th expression's |
| EntryRender.ExpressionsBlock | mkdict/dict_entry.py:184-196 | the expressions block is emitted iff there are expressions |
| EntryRender.AnchorIdOf | mkdict/dict_entry.py:216 | the anchor of a Kindle entry reads back as the id written there |
| EntryRender.AnchorIdOfInt | mkdict/dict_entry.py:216 | the anchor reads back as the decimal form of the entry id |
| EntryRender.KindleEntryShape | mkdict/dict_entry.py:214-264 | the Kindle entry is the anchor prefix, the id, a quote, the `idx:orth` block, the body and the footer |
| EntryRender.KindleAnchorId | mkdict/dict_entry.py:216 | the anchor of the Kindle entry is `str(entry.id)`, and `int()` of it is `entry.id` |
| EntryRender.BodyPrefixOf | mkdict/dict_entry.py:161-196 | what opens the gender, inflections and definitions blocks also opens the body |
| EntryRender.BodyPrefixGender | mkdict/dict_entry.py:161-162 | with a truthy gender the body opens with the gender div |
| EntryRender.BodyPrefixInflections | mkdict/dict_entry.py:161-166 | without a gender but with a table the body opens with the inflections div |
| EntryRender.BodyPrefixDefinitions | mkdict/dict_entry.py:161-173 | without a gender and without a table the body opens with the definitions div |
| EntryRender.BodyOpensWithGender | mkdict/dict_entry.py:161-181 | the body opens with `<div class="gender">` iff the gender is truthy; otherwise it opens with the inflections div when there is a table, and with the definitions div when not |
| EntryRender.RenderInflectionItems | mkdict/dict_entry.py:167-169 | the attribute loop builds the `li` lines of the table, in order |
| EntryRender.RenderExamples | mkdict/dict_entry.py:178-179 | the example loop appends one `li` per example, in order |
| EntryRender.RenderDefinition | mkdict/dict_entry.py:175-180 | one definition: its explanations joined by `", "`, then its examples' sub-list when it has examples |
| EntryRender.RenderDefinitions | mkdict/dict_entry.py:174-180 | the definition loop builds the definition items in order |
| EntryRender.DefinitionLinesSnoc | mkdict/dict_entry.py:174 | one more definition adds its item at the end |
| EntryRender.RenderExpressions | mkdict/dict_entry.py:186-195 | the expression loop builds the expression items in order, each with its definitions |
| EntryRender.Body | mkdict/dict_entry.py:160-196 | the gender, inflections, definitions and expressions blocks, in that order, shared by both renderings; its contract is in `EntryRender.RenderBody` and `EntryRender.BodyOpensWithGender` |
| EntryRender.RenderBody | mkdict/dict_entry.py:160-196 | the gender, inflections, definitions and expressions blocks, in that order |
| EntryRender.PageHeader | mkdict/dict_entry.py:147-158 | the page template up to the heading: the stylesheet link, the word as title, and the word and the part of speech as heading; its contract is in `EntryRender.DictionaryEntryToHtml` and `EntryRender.EntryPage` |
| EntryRender.KindleHeader | mkdict/dict_entry.py:214-221 | the anchor with `str(entry.id)`, then the `idx:orth` block with the word and `generate_inflections`; its contract is in `EntryRender.KindleEntryShape` and `EntryRender.KindleAnchorId` |
| EntryRender.Framed | mkdict/dict_entry.py:147-203 | a header, a body and a footer put together frame that body |
| EntryRender.EntryPage | mkdict/dict_entry.py:139-203 | the page is the page header, then the body, then the page footer, and the body can be cut back out of it |
| EntryRender.KindleEntry | mkdict/dict_entry.py:206-266 | the Kindle entry is the Kindle header, then the body, then the Kindle footer, and the body can be cut back out of it |
| EntryRender.GenerateInflections | mkdict/dict_entry.py:269-288 | `generate_inflections` returns the `idx:infl` block of `InflectionIndex`: `''` without inflections, otherwise one `idx:iform` per listed field in field order (`EntryRender.IformLinesInOrder`) |
| EntryRender.DictionaryEntryToHtml | mkdict/dict_entry.py:139-203 | the page: the header with the stylesheet href and the word as title and heading, the body, the footer |
| EntryRender.DictionaryEntryToXhtml | mkdict/dict_entry.py:206-266 | the Kindle entry: the anchor with the id, `idx:orth` with the word and the `idx:infl` block, the body, the footer |
| CleanHtml.FilterAttrs | mkdict/clean_html.py:63-68 | the attributes a kept tag is left with are among its old ones |
| CleanHtml.FilterAttrsIdempotent | clean_html.py:26-28 | filtering the attributes again changes nothing |
| CleanHtml.Unwraps | mkdict/clean_html.py:58 | a tag named like its parent is always unwrapped, and any other unwrapped tag is a `span` |
| CleanHtml.Cleaned | mkdict/clean_html.py:52-68 | `clean_tags` keeps the tag itself, with its identity, name and attributes |
| CleanHtml.CleanChild | mkdict/clean_html.py:55-68 | one child after its own children are cleaned: a string stays; a tag is unwrapped into its cleaned children (`CleanHtml.Unwraps`), decomposed when empty or blank, or kept with filtered attributes; its contract is in `CleanHtml.CleanChildText`, `CleanHtml.CleanChildTidy` and `CleanHtml.CleanChildKeeps` |
| CleanHtml.CleanChildren | mkdict/clean_html.py:53-68 | each child handled on its own, the results in order; its contract is in `CleanHtml.CleanChildrenText`, `CleanHtml.CleanChildrenTidy`, `CleanHtml.CleanChildrenKeeps` and `CleanHtml.CleanChildrenAppend` |
| CleanHtml.CleanChildrenAppend | mkdict/clean_html.py:53-55 | the children are cleaned independently and in order |
| CleanHtml.BlankHasNoText | mkdict/clean_html.py:60-62 | a decomposed child has no stripped strings |
| CleanHtml.CleanChildrenText | mkdict/clean_html.py:53-68 | cleaning keeps the stripped strings of the children: unwrap splices, decompose drops only blank strings, attribute filtering touches no text |
| CleanHtml.CleanChildText | mkdict/clean_html.py:55-68 | the same for one child |
| CleanHtml.TidyAppend | mkdict/clean_html.py:53 | kept children side by side stay tidy |
| CleanHtml.CleanChildrenTidy | mkdict/clean_html.py:53-68 | every tag left after cleaning, at any depth, has filtered attributes and contents that are not all blank; under the class-keeping variant no class-less span is left |
| CleanHtml.CleanChildTidy | clean_html.py:15-28 | the same for one child, under either variant |
| CleanHtml.CleanChildrenKeeps | mkdict/clean_html.py:53-68 | cleaning brings in no comment and no tag identity |
| CleanHtml.CleanChildKeeps | mkdict/clean_html.py:55-68 | the same for one child |
| CleanHtml.CleanTags | mkdict/clean_html.py:52-68 | the loop-and-recursion `clean_tags` (class-keeping) computes `Cleaned`; the same method with the attribute-stripping variant models clean_html.py:15-28 |
| CleanHtml.StripComments | mkdict/clean_html.py:11-13 | every comment, at every depth, left out and nothing else changed; its contract is in `CleanHtml.StripCommentsClean`, `CleanHtml.StripCommentsText` and `CleanHtml.StripCommentsNone` |
| CleanHtml.FirstComment | mkdict/clean_html.py:12 | the first comment is at a valid path, and there is none exactly when the tree holds no comment |
| CleanHtml.StripCommentsAppend | mkdict/clean_html.py:12-13 | comment removal works part by part |
| CleanHtml.StripCommentsAround | mkdict/clean_html.py:12-13 | comment removal around one position |
| CleanHtml.RemoveOneComment | mkdict/clean_html.py:13 | extracting one comment removes exactly one and keeps the comment-free tree the same |
| CleanHtml.StripCommentsNone | mkdict/clean_html.py:12 | a tree without comments is left as it is |
| CleanHtml.StripCommentsClean | mkdict/clean_html.py:11-13 | afterwards no comment is left anywhere |
| CleanHtml.StripCommentsText | mkdict/clean_html.py:11-13 | removing comments keeps the stripped strings |
| CleanHtml.StripCommentsCons | mkdict/clean_html.py:12 | comment removal of a list is that of its head, then that of its tail |
| CleanHtml.StripCommentsTextOne | mkdict/clean_html.py:11-13 | the same text preservation for one node |
| CleanHtml.RemoveComments | mkdict/clean_html.py:11-13 | `remove_comments` leaves the tree with every comment removed and nothing else changed; clean_html.py:10-12 is the same function |
| CleanHtml.SimplifiedList | mkdict/clean_html.py:33-48 | a new tag of the list's name without attributes, holding one new item per direct `li`; its contract is in `CleanHtml.SimplifiedListShape` and `CleanHtml.SimplifiedListKeeps` |
| CleanHtml.SimplifiedItems | mkdict/clean_html.py:38-46 | one new item per text |
| CleanHtml.ItemTexts | mkdict/clean_html.py:40-41 | one text per item |
| CleanHtml.SimplifiedItemsAt | mkdict/clean_html.py:38-46 | the `k`-th new item is made from the `k`-th text and has the `k`-th new identity |
| CleanHtml.SimplifiedListShape | mkdict/clean_html.py:33-48 | same name, no attributes, one bare `li` per direct `li`, holding one string: that item's stripped strings joined by single spaces |
| CleanHtml.SimplifiedItemsKeep | mkdict/clean_html.py:44-46 | the new items hold no comment and only new identities |
| CleanHtml.SimplifiedListKeeps | mkdict/clean_html.py:33-48 | the new list holds no comment and only the identities allocated for it |
| CleanHtml.NewItems | mkdict/clean_html.py:38-46 | the item loop builds the new items, one per text, in order, with consecutive identities |
| CleanHtml.SimplifyList | mkdict/clean_html.py:33-48 | the append loop of `simplify_list` builds `SimplifiedList`; clean_html.py:30-45 is the same function |
| CleanHtml.CleanedAt | mkdict/clean_html.py:77-78 | the saved tag cleaned where it now is, the document unchanged when no tag has its identity (`Html.FindByIdComplete`); its contract is in `CleanHtml.CleanedAtText`, `CleanHtml.CleanedAtClean` and `CleanHtml.CleanedIds` |
| CleanHtml.CleanedAtText | mkdict/clean_html.py:77-78 | cleaning one found tag in place keeps the document's stripped strings |
| CleanHtml.CleanedAtClean | mkdict/clean_html.py:77-78 | cleaning one found tag in place brings in no comment |
| CleanHtml.CleanedIds | mkdict/clean_html.py:78 | cleaning a tag brings in no tag identity |
| CleanHtml.CleanById | mkdict/clean_html.py:77-78 | `clean_tags(element)` on a saved tag cleans it where it now is, or does nothing when it is no longer in the document |
| CleanHtml.SimplifiedAt | mkdict/clean_html.py:82-83 | the saved list replaced by its simplified form where it now is, the document unchanged when no tag has its identity; its contract is in `CleanHtml.SimplifiedAtFound`, `CleanHtml.SimplifiedAtKeeps` and `CleanHtml.SimplifiedAtById` |
| CleanHtml.SimplifiedAtKeeps | mkdict/clean_html.py:81-83 | replacing a list brings in no comment |
| CleanHtml.SimplifiedAtIds | mkdict/clean_html.py:82-83 | after the replacement every identity is below the advanced counter |
| CleanHtml.SimplifiedAtById | mkdict/clean_html.py:81-83 | replacing a saved list keeps every identity below the counter once it is advanced by the replacement's cost |
| CleanHtml.SimplifiedAtFound | mkdict/clean_html.py:81-83 | a list that is found is replaced by its simplified form, and the counter advances by one for the list and one per item |
| CleanHtml.SimplifyById | mkdict/clean_html.py:82-83 | `list_tag.replace_with(simplify_list(list_tag))` on a saved list |
| CleanHtml.TagIds | mkdict/clean_html.py:77 | the identities of the saved tags, one per tag, in order |
| CleanHtml.Found | mkdict/clean_html.py:77 | `soup.find_all(name)` as the identities of the tags found, in document order; `CleanHtml.BasicStepText` and `CleanHtml.BasicStepClean` hold for every such snapshot |
| CleanHtml.CleanedEachText | mkdict/clean_html.py:77-78 | cleaning any sequence of saved tags keeps the stripped strings |
| CleanHtml.CleanedEach | mkdict/clean_html.py:77-78 | the saved tags cleaned one after the other, each found by its identity in the document as it then stands; its contract is in `CleanHtml.CleanedEachText` and `CleanHtml.CleanedEachClean` |
| CleanHtml.CleanedEachClean | mkdict/clean_html.py:77-78 | cleaning any sequence of saved tags brings in no comment |
| CleanHtml.BasicStepText | mkdict/clean_html.py:77-78 | cleaning every tag of one name keeps the stripped strings |
| CleanHtml.BasicStep | mkdict/clean_html.py:76-78 | one name of the basic pass: the tags of that name found at that moment, cleaned in document order; its contract is in `CleanHtml.BasicStepText` and `CleanHtml.BasicStepClean`, and `CleanHtml.CleanElements` is proved against it |
| CleanHtml.BasicPass | mkdict/clean_html.py:76-78 | the basic names taken in turn; its contract is in `CleanHtml.BasicPassText`, `CleanHtml.BasicPassTextStep` and `CleanHtml.BasicPassClean`, and `CleanHtml.CleanBasicElements` is proved against it |
| CleanHtml.BasicPassTextStep | mkdict/clean_html.py:76-78 | one more name in the pass keeps the stripped strings |
| CleanHtml.BasicPassText | mkdict/clean_html.py:76-78 | the whole basic-element pass keeps the stripped strings, whatever the order of names |
| CleanHtml.BasicStepClean | mkdict/clean_html.py:77-78 | cleaning every tag of one name brings in no comment |
| CleanHtml.BasicPassClean | mkdict/clean_html.py:76-78 | the basic-element pass brings in no comment |
| CleanHtml.ListPassKeeps | mkdict/clean_html.py:81-83 | the list pass only advances the counter and brings in no comment |
| CleanHtml.ListPass | mkdict/clean_html.py:81-83 | the lists found replaced one after the other, each new list taking its identities from the counter as it then stands; its contract is in `CleanHtml.ListPassKeeps`, and `CleanHtml.SimplifyLists` is proved against it |
| CleanHtml.CleanedDocument | mkdict/clean_html.py:71-83 | comments removed, then the basic-element pass, then every `ul` found after it simplified; its contract is in `CleanHtml.CleanedDocumentClean` |
| CleanHtml.CleanedDocumentClean | mkdict/clean_html.py:71-83 | after the document pass no comment is left and the counter has not gone back; the first two passes keep the stripped strings |
| CleanHtml.CleanElements | mkdict/clean_html.py:77-78 | the inner loop cleans every tag of one name, found before any is cleaned, in document order |
| CleanHtml.CleanBasicElements | mkdict/clean_html.py:76-78 | the outer loop runs that for each basic element name in turn; clean_html.py:75-77 is the same loop |
| CleanHtml.SimplifyLists | mkdict/clean_html.py:81-83 | every `ul` found before the pass is replaced, in document order, by its simplified form; clean_html.py:80-82 is the same loop |
| CleanHtml.CleanDocument | mkdict/clean_html.py:71-83 | the three passes in order give `CleanedDocument`, and no comment is left in the document; with the attribute-stripping variant it is the module-level sequence at clean_html.py:71-82 |
| Scrape.PageFileNameOfUrl | mkdict/scrape.py:60-62 | the article with index `i` is saved as `page_<i>.html` |
| Scrape.Url | mkdict/scrape.py:13 | `URL_BASE.format(i)` starts with the base and has the index after it |
| Scrape.UrlIndex | mkdict/scrape.py:13 | the index converts back from what follows the base |
| Scrape.PageFileName | mkdict/scrape.py:61-62 | the file name has no `/`, so the page is written directly into the destination directory |
| Scrape.Range | mkdict/scrape.py:73 | `range(start, end + 1)`: `end - start + 1` ascending indices from `start`, none when `start > end` |
| Scrape.RangeSnoc | mkdict/scrape.py:73 | a range ends with its last index |
| Scrape.DownloadsSnoc | mkdict/scrape.py:74-75 | one more index adds its download at the end |
| Scrape.Downloads | mkdict/scrape.py:73-80 | one `download_page(URL_BASE.format(i), dest_dir)` per page, in order; its contract is in `Scrape.DownloadsSnoc` and `Scrape.DownloadsAppend`, and `Scrape.DownloadRange` and `Scrape.DownloadPages` are proved against it |
| Scrape.DownloadsAppend | mkdict/scrape.py:67-80 | the downloads of two index lists are those of the first, then those of the second |
| Scrape.DownloadRange | mkdict/scrape.py:73-75 | the range loop issues one download of `URL_BASE.format(i)` per index, in order |
| Scrape.DownloadPart | mkdict/scrape.py:70-80 | a refused part issues nothing and reports its error; an accepted part issues its pages' downloads |
| Scrape.PartEnds | mkdict/scrape.py:70-78 | the conversions of one part: a refusal exactly when the part is refused, with its error; otherwise the two ends of the range, or the single page |
| Scrape.DownloadPages | mkdict/scrape.py:66-80 | the trace is the downloads of the expansion of the comma-separated parts, and the error is the first refused part's |
| Scrape.Expand | mkdict/scrape.py:67-80 | the pages of the comma-separated parts, left to right, stopping at the first refused part; its contract is in `Scrape.ExpandStep`, `Scrape.ExpandStops`, `Scrape.ExpandPrefix` and `Scrape.ExpandErrorIff` |
| Scrape.ExpandNext | mkdict/scrape.py:67-80 | one round of the loop over the parts: after a refusal nothing changes; otherwise a refused part stops the expansion with its error and an accepted part appends its pages |
| Scrape.ExpandStep | mkdict/scrape.py:67-80 | parts are processed left to right: a refused part stops the expansion with its error, an accepted one appends its pages |
| Scrape.ExpandStops | mkdict/scrape.py:67-80 | nothing after a refused part is looked at |
| Scrape.ExpandPrefix | mkdict/scrape.py:67-80 | the expansion of the first `n + 1` parts continues that of the first `n` with the next stripped part |
| Scrape.ExpandErrorIff | mkdict/scrape.py:67-80 | the expansion has no error exactly when every stripped part is accepted |
| Scrape.ExpandErrorFree | mkdict/scrape.py:67-80 | the same, with acceptance of every part stated recursively |
| Scrape.AllOfIff | mkdict/scrape.py:67 | the recursive "every part" agrees with the quantified one |
| Scrape.PartPages | mkdict/scrape.py:70-78 | what one stripped part stands for: a range converted end by end while unpacked, a single page, or the first refusal; its contract is in the `Scrape.PartPages*` lemmas and `Scrape.NegativePageRefused` |
| Scrape.PartPagesTooMany | mkdict/scrape.py:72 | a range with more than two ends is refused |
| Scrape.PartPagesRangeAccepted | mkdict/scrape.py:70-73 | an accepted part with a `-` has exactly two converting ends and stands for the inclusive range between them |
| Scrape.PartPagesRangeOfEnds | mkdict/scrape.py:70-73 | a part with two converting ends is accepted |
| Scrape.PartPagesSingleIff | mkdict/scrape.py:76-78 | a part without `-` is accepted iff it converts, and stands for that single index |
| Scrape.PartPagesOfIndex | mkdict/scrape.py:78 | a part written as `str(i)` stands for page `i` |
| Scrape.PartPagesOfRange | mkdict/scrape.py:72-73 | a part written as `start-end` stands for the range from `start` to `end` |
| Scrape.NegativePageRefused | mkdict/scrape.py:70-72 | a negative page such as `-3` is read as a range with an empty first end, which is refused |
| Scrape.PartPagesErrors | mkdict/scrape.py:70-78 | a conversion refusal names a piece that does not convert, and an unpacking refusal comes only from a range with more than two pieces |

## Left out

- Browser automation is not modelled: the body of `download_page` (Selenium, the waits, the network and the
  file write) is the `Download` action of a trace. `selenium_scrape.py`, `run_scrape.py` (command-line
  handling) and `run_compile.py` (file copying, shell calls, zip packaging) are not part of this model.
- `DictionaryEntry.pretty_print` is console output and is not modelled.
- The `__main__` blocks of `mkdict/parse_html.py` and `mkdict/clean_html.py` read and write files. They are not
  modelled, nor is the file read at `clean_html.py:4-7` and the prettify and write at `clean_html.py:84-89`.
  Those script lines become `CleanHtml.CleanDocument` on a `Soup` given as a parameter.
- HTML parsing and `prettify` are not modelled: a `Soup` is built from an already parsed tree, and its
  output is the tree itself.
- Case mapping covers ASCII and the Latin-1 letters (including `æ`, `ø`, `å`); other Unicode case pairs
  and multi-character case forms (such as `'ß'.upper() == 'SS'`) are not modelled.
- `int()` accepts ASCII digits only; non-ASCII decimal digits, which Python also accepts, are not modelled.
- Tag identities are assumed distinct in a parsed document; `Soup.Valid` keeps every identity below the
  counter, so new tags never collide with old ones, but distinctness among the parsed tags is not proved.
- `Html.FindById`: that the path found is the first one in document order is not stated. Identities are
  taken to be distinct, so no second tag with the same identity is expected.
- `CleanHtml.CleanById`, `CleanHtml.SimplifyById`: a saved tag that is no longer in the document is left
  alone. In the code such a tag is either emptied by the unwrap or decompose that removed it, so cleaning
  it changes nothing visible, or it sits in a detached subtree whose changes never reach the document.
  A `ul` that is no longer in the document allocates no identities, which only shifts the numbers of later
  new tags.
- `CleanHtml.CleanDocument`: the order in which the set of basic element names is walked is a parameter
  (any order that lists each name once); nothing is proved that depends on that order.
- `CleanHtml.SimplifyList`, `ParseHtml.FillForms`: the texts of the items and cells are computed before the
  loop rather than inside it; the loops still build the list and the dict one step at a time.
- `Scrape.DownloadPages`: a refused part is reported as a `PageSpecError` value; the `ValueError` message
  texts Python would print are not modelled.
- `EntryModel.NewInflections`: the `TypeError` messages of the dataclass constructor come from the
  interpreter and are not modelled; only which error is raised is.
- No idempotence of the normaliser is stated, as explained above.
- `EntryRender.EntryPage`, `EntryRender.DictionaryEntryToHtml`: the stylesheet path is a required
  parameter. The default `css_file_path='dictionary_style.css'` of `mkdict/dict_entry.py:139` is not
  modelled.
- Default arguments of the dataclasses are not modelled. Every `EntryModel.Definition` gives its
  examples, and the `[]` default of `mkdict/dict_entry.py:12` is not modelled. Every
  `EntryModel.DictionaryEntry` gives its gender, inflections and expressions, and the defaults of
  `mkdict/dict_entry.py:89-91` are not modelled. The inflection dataclasses' `None` defaults are
  modelled (`EntryModel.BindKeywords`).
- `EntryModel.PostInitInflections`: inflection fields hold strings or `None`, so the list and dict
  branches of `to_lowercase` are never reached through `__post_init__`. Those branches are proved only
  for `EntryModel.ToLowercase` applied directly.
