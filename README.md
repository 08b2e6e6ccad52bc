# Purchase-order PDF reader: verified model of its deterministic core

The service receives a PDF (a purchase order or an invoice), extracts its
tables and text, and hands them to language-model agents. Two parts of it are
plain, deterministic code, and this project models both in Dafny and proves
what they do:

* **The keyword classifier** (`is_purchase_order`, `is_invoice`). Each is true
  when one of four fixed keywords occurs in the lower-cased text.
* **The post-processing in `read_pdf`.** It takes the tables camelot found and
  the page texts pdfplumber extracted, and builds:
  * `line_items`: for each table, the first row becomes the header, and every
    later row becomes a record with stripped keys and stripped string values.
  * `raw_text`: the non-empty page texts joined by `"\n"`.
  * Three dicts of fields (metadata, taxes, totals). Each field is one
    `find(pattern)` over `raw_text`, i.e. `re.search(..., re.IGNORECASE)`,
    then group 1 stripped, or `None`.
  * The five-key result.

Modules:

* **`Wrappers`** (`wrappers.dfy`): `Option` and `Result`.
* **`Text`** (`text.dfy`): the string operations the code relies on:
  * `str.isspace`, ASCII `str.lower` and `str.strip`;
  * substring search;
  * label comparison that ignores case.
* **`Dicts`** (`dicts.dfy`): a Python `dict` as an insertion-ordered list of
  items.
  * An assignment to an existing key replaces the value in place.
  * `dict(pairs)` keeps the first position and the last value of a repeated
    key.
* **`Validators`** (`validators.dfy`): the two classifier predicates and their
  properties.
* **`TableRecords`** (`table_records.dfy`): the table loop, lines 32-45.
  * Records are built as a pandas `to_dict(orient="records")` would build
    them, i.e. `dict(zip(header, row))`, then cleaned by the comprehension.
  * Two errors can occur. `EmptyTable` is the `IndexError` of `df.iloc[0]` on
    a table without rows. `HeaderNotText` is the `AttributeError` of
    `k.strip()` on a header cell that is not a string.
  * `CollectLineItems` is the imperative loop. It is proved equal to the
    functional `LineItems`, and the properties are lemmas about `LineItems`.
* **`PageText`** (`page_text.dfy`): the page loop, lines 50-55, as the method
  `CollectPageTexts`, proved equal to `KeptTexts`. Also the `"\n".join` and
  its inverse `split`.
* **`FieldMatch`** (`field_match.dfy`): `find` over the regular-expression
  shapes the loader uses.
  * Every pattern has the shape `Label Gap \s* (Tail)`:
    * the label is a literal matched ignoring case;
    * the gap is nothing, a lazy `.*?:`, or a greedy `.*Second`;
    * the tail is `.+`, `(?:Vendor No:.*\n)?(.+)` or `[\d,]+\.\d{2}`.
  * Matching follows the backtracking order of Python's engine:
    * `re.search` takes the leftmost start position;
    * the greedy `\s*` gives back one character at a time;
    * the lazy `.*?` stops at the first colon that works;
    * the greedy `.*` backs off from the end of the line.
* **`PdfLoader`** (`pdf_loader.dfy`):
  * the eleven patterns and the three rule tables;
  * the method `ReadPdf`, proved equal to the function `Load`;
  * properties of the whole document.

One note on the code's behaviour. `re.search` reports the leftmost position
where the *whole* pattern matches. That need not be the first occurrence of
the label: a label occurrence whose tail fails is passed over. The model
follows this (`FieldMatch.SearchLeftmost`, `FieldMatch.FindSpec`).

A consequence, proved about the code as written, is that `"Date:"` also
matches inside `"Delivery/Completion Date:"`:
* whenever `delivery_date` is found, `po_date` is found as well;
* when no other `Date:` comes first, the two fields hold the same value.

See `PdfLoader.DeliveryDateGivesPoDate` and
`PdfLoader.PoDateShadowedByDeliveryDate`.

A second note, on header cells that collide after stripping. `to_dict` keeps
the first position and the last value of a repeated raw header. The
comprehension then writes the stripped keys in that order, so the last write
wins. When the raw headers are pairwise different, the last column whose
header strips to a key supplies its value (`TableRecords.LaterColumnWins`).
When a raw header repeats, an earlier column can win instead: headers `"A"`,
`" A"`, `"A"` over cells `"1"`, `"2"`, `"3"` give `{"A": "2"}`
(`TableRecords.RepeatedRawHeaderKeepsMiddle`).

## Model

| member | source | states |
|---|---|---|
| `Validators.AnyKeywordIn` | app/utils/validators.py:3 | `any(k.lower() in text.lower() for k in keywords)` holds iff some keyword, lower-cased, occurs in the lower-cased text |
| `Validators.AnyOfFour` | app/utils/validators.py:2-3 | for a four-keyword list the `any` is the four-way disjunction of its substring tests |
| `Validators.KeywordsAreLowerCase` | app/utils/validators.py:1-7 | every keyword of both lists is already lower case, so `k.lower()` is `k` |
| `Validators.IsPurchaseOrder` | app/utils/validators.py:1-3 | true iff "purchase order", "po number", "vendor" or "quantity" is a substring of the lower-cased text |
| `Validators.IsInvoice` | app/utils/validators.py:5-7 | true iff "invoice", "invoice number", "tax" or "total amount" is a substring of the lower-cased text |
| `Validators.ClassifierIgnoresCase` | app/utils/validators.py:1-7 | two texts equal up to the case of letters get the same verdict from each predicate |
| `Validators.ShortTextIsNeither` | app/utils/validators.py:1-7 | a text shorter than 3 characters, the empty text included, is neither a purchase order nor an invoice |
| `Validators.KeywordInEnclosingText` | app/utils/validators.py:3 | a keyword found in the lower-cased text is found in the lower-cased text of any text containing it |
| `Validators.ClassifierMonotone` | app/utils/validators.py:1-7 | if `t` is a substring of `u`, each predicate that holds for `t` holds for `u` |
| `Validators.InvoiceNumberKeywordRedundant` | app/utils/validators.py:5-7 | `is_invoice` equals the same test over "invoice", "tax" and "total amount" alone |
| `Validators.PurchaseOrderWithoutInvoiceWords` | app/utils/validators.py:1-7 | a text containing "Vendor" and no letter that lower-cases to 'i' or 't' is a purchase order and not an invoice |
| `Validators.PurchaseOrderOnlyExample` | app/utils/validators.py:1-7 | "Purchase Order Vendor: Acme" is a purchase order and not an invoice |
| `Validators.VendorAndTaxPassBothGates` | app/utils/validators.py:1-7 | a text containing "vendor" and "tax" passes both predicates: they are not exclusive |
| `Text.LowerChar` | app/utils/validators.py:3 | ASCII `lower()` of one character: the result is never an upper-case letter, only upper-case letters change, and the result is a lower-case letter exactly when the input was a letter |
| `Text.Contains` | app/utils/validators.py:3 | `k in s` holds iff `k` occurs in `s` at some index |
| `Text.OccursShift` | app/utils/validators.py:3 | occurrences in `s[1..]` are the occurrences in `s` after index 0, shifted by one |
| `Text.OccursTransitive` | app/utils/validators.py:3 | an occurrence of `k` inside an occurrence of `t` in `s` is an occurrence of `k` in `s` |
| `Text.OccursLower` | app/utils/validators.py:3 | lower-casing keeps every occurrence |
| `Text.ContainsLower` | app/utils/validators.py:3 | if `s` contains `k`, then `s.lower()` contains `k.lower()` |
| `Text.LowerSlice` | app/utils/validators.py:3 | lower-casing commutes with taking a slice |
| `Text.LowerOfLowerCase` | app/utils/validators.py:3 | a text without upper-case letters is its own `lower()` |
| `Text.LowerOfCapitalized` | app/utils/validators.py:3 | a word capitalised only at its first character lower-cases to that character lowered, then the rest |
| `Text.AbsentLetterNotContained` | app/utils/validators.py:3 | a keyword holding a letter that no character of the text lower-cases to is not found in the lower-cased text |
| `Text.LongerNotContained` | app/utils/validators.py:3 | a keyword longer than the text is not contained in it |
| `Text.MatchesFoldAtLower` | app/utils/pdf_loader.py:63 | the label matches at `i` under `re.IGNORECASE` iff the lower-cased label occurs at `i` in the lower-cased text |
| `Text.MatchesFoldSuffix` | app/utils/pdf_loader.py:63 | a label matching at `i` means its suffix from `d` matches at `i + d` |
| `Text.TrimLeft` | app/utils/pdf_loader.py:43-44 | the left strip is no longer than its input and does not start with whitespace |
| `Text.TrimLeftCutsSpace` | app/utils/pdf_loader.py:43-44 | the left strip is a suffix of the input, and what it removes is all whitespace |
| `Text.TrimRight` | app/utils/pdf_loader.py:43-44 | the right strip is no longer than its input and does not end with whitespace |
| `Text.TrimRightCutsSpace` | app/utils/pdf_loader.py:43-44 | the right strip is a prefix of the input, and what it removes is all whitespace |
| `Text.Trim` | app/utils/pdf_loader.py:43-44 | `str.strip()` returns a text with no whitespace at either end |
| `Text.TrimIsSlice` | app/utils/pdf_loader.py:43-44 | `strip()` is a slice of its input, with only whitespace before and after it |
| `Text.TrimOfTrimmed` | app/utils/pdf_loader.py:43-44 | stripping a text without surrounding whitespace leaves it unchanged |
| `Text.TrimIdempotent` | app/utils/pdf_loader.py:43-44 | stripping twice is stripping once |
| `Text.TrimNoSpace` | app/utils/pdf_loader.py:43-44 | a text with no whitespace at all is unchanged by `strip()` |
| `Dicts.IndexOf` | app/utils/pdf_loader.py:43-44 | the position of the first item with key `k`: that item has key `k`, no earlier item does, and it is `len(d)` when `k` is absent |
| `Dicts.IndexOfUnique` | app/utils/pdf_loader.py:43-44 | those three properties determine the position |
| `Dicts.Get` | app/utils/pdf_loader.py:43-44 | a reference lookup the program never calls, used to state what the record holds under each key: present iff `k` is a key, and with distinct keys the value stored with `k` |
| `Dicts.ReplaceIndexOf` | app/utils/pdf_loader.py:43-44 | overwriting the item of an existing key moves no key's position |
| `Dicts.ReplaceKeepsOthers` | app/utils/pdf_loader.py:43-44 | `d[k] = v` on an existing key maps `k` to `v`, changes no other key, and keeps the key set |
| `Dicts.AppendKeepsOthers` | app/utils/pdf_loader.py:43-44 | `d[k] = v` on a new key maps `k` to `v`, changes no other key, and adds exactly `k` |
| `Dicts.PutSpec` | app/utils/pdf_loader.py:43-44 | dict assignment keeps keys distinct, maps `k` to `v`, leaves other keys alone, and grows the dict only for a new key |
| `Dicts.HasKeyInit` | app/utils/pdf_loader.py:43-44 | the keys of a list of pairs are those of all but its last pair, plus the last pair's key |
| `Dicts.FromPairsItems` | app/utils/pdf_loader.py:43-44 | a dict built from pairs has distinct keys, exactly the pairs' keys, and only items that are among the pairs |
| `Dicts.FromPairsLastWins` | app/utils/pdf_loader.py:43-44 | in a dict built from pairs, a key maps to the value of its last pair |
| `Dicts.FromDistinctPairs` | app/utils/pdf_loader.py:43-44 | pairs with distinct keys build a dict holding exactly those pairs in order |
| `TableRecords.CleanValue` | app/utils/pdf_loader.py:43 | `v.strip() if isinstance(v, str) else v`: a string stays a string, comes out stripped, and a missing value passes through |
| `TableRecords.RawKeysAreText` | app/utils/pdf_loader.py:37-43 | the raw record has a non-string key iff some header cell that `zip` reaches is not a string |
| `TableRecords.CleanedRecordKeys` | app/utils/pdf_loader.py:43-44 | every column's stripped header is a key of the cleaned record |
| `TableRecords.CleanedRecordValues` | app/utils/pdf_loader.py:43-44 | every item of the cleaned record is the stripped header and cleaned cell of one column |
| `TableRecords.ColumnsGiveCleanRecord` | app/utils/pdf_loader.py:43-44 | a record made of stripped headers and cleaned cells has no key or string value with surrounding whitespace |
| `TableRecords.CleanRecord` | app/utils/pdf_loader.py:41-44 | one body row yields a record iff every header cell it reaches is a string; otherwise `strip` raises |
| `TableRecords.CleanRecordContents` | app/utils/pdf_loader.py:43-44 | the cleaned record has distinct keys, is clean, every item comes from one column, and every column's stripped header is a key |
| `TableRecords.LaterColumnWins` | app/utils/pdf_loader.py:41-44 | when the raw header cells `zip` reaches are pairwise different and some of them collide after stripping, the record maps the stripped header to the value of the last such column |
| `TableRecords.RepeatedRawHeaderKeepsMiddle` | app/utils/pdf_loader.py:41-44 | without pairwise different raw headers the last column need not win: headers `"A"`, `" A"`, `"A"` over cells `"1"`, `"2"`, `"3"` give the record `{"A": "2"}` |
| `TableRecords.RepeatedRawHeaderRaw` | app/utils/pdf_loader.py:41 | in that example the raw record is `{"A": "3", " A": "2"}`: first position, last value of the repeated header |
| `TableRecords.RawRecordOfDistinct` | app/utils/pdf_loader.py:41 | with pairwise different header cells, the raw record is the zip itself, with no column lost |
| `TableRecords.BodyRecords` | app/utils/pdf_loader.py:41-45 | when the body rows load, there is one record per body row |
| `TableRecords.BodyRecordsSucceed` | app/utils/pdf_loader.py:41-45 | a table's body rows load iff each of them reaches only string header cells |
| `TableRecords.BodyRecordsAt` | app/utils/pdf_loader.py:42-45 | record k of a loaded body is body row k cleaned against the header, so row order is kept |
| `TableRecords.BodyFailurePersists` | app/utils/pdf_loader.py:42-45 | once a prefix of the body rows raises, the whole body raises the same error |
| `TableRecords.TablesFailurePersist` | app/utils/pdf_loader.py:33-45 | once a prefix of the tables raises, the whole table loop raises the same error |
| `TableRecords.BodyRecordsStep` | app/utils/pdf_loader.py:42-45 | one more body row either appends its cleaned record or raises that row's error |
| `TableRecords.LineItemsStep` | app/utils/pdf_loader.py:33-45 | one more table either appends its records or raises that table's error |
| `TableRecords.AppendBodyRecords` | app/utils/pdf_loader.py:42-45 | the inner loop appends to `line_items` exactly the table's records, or stops with the error the comprehension raises |
| `TableRecords.CollectLineItems` | app/utils/pdf_loader.py:32-45 | the nested loops produce exactly `LineItems(tables)`: the records of every table in order, or the first error raised |
| `TableRecords.LineItemsSucceed` | app/utils/pdf_loader.py:33-45 | `line_items` is produced iff every table has a header row and each of its body rows reaches only string header cells |
| `TableRecords.LineItemsCount` | app/utils/pdf_loader.py:36-38 | each table with n ≥ 1 rows contributes n − 1 records: `len(line_items)` is the sum of (rows − 1) |
| `TableRecords.LineItemsTableLoads` | app/utils/pdf_loader.py:33-45 | when `line_items` is produced, every table produced its records |
| `TableRecords.LineItemsConcat` | app/utils/pdf_loader.py:32-45 | record k of table t sits in `line_items` right after the records of all earlier tables |
| `TableRecords.TableRecordAt` | app/utils/pdf_loader.py:36-45 | row i ≥ 1 of a table that loads becomes the table's record i − 1, cleaned against row 0 |
| `TableRecords.LineItemsAt` | app/utils/pdf_loader.py:32-45 | row i ≥ 1 of table t is the line item at (body rows of earlier tables) + i − 1, cleaned against table t's header |
| `TableRecords.LineItemsAreClean` | app/utils/pdf_loader.py:43-45 | every line item has distinct keys and no key or string value with surrounding whitespace |
| `PageText.KeptTexts` | app/utils/pdf_loader.py:52-55 | the kept texts are at most one per page, and none is empty |
| `PageText.CollectPageTexts` | app/utils/pdf_loader.py:50-55 | the page loop builds `full_text` equal to `KeptTexts(pages)`: the truthy page texts in page order |
| `PageText.KeptTextsAppend` | app/utils/pdf_loader.py:52-55 | the texts kept from two runs of pages are those of each run, one after the other |
| `PageText.KeptTextsCount` | app/utils/pdf_loader.py:52-55 | exactly one text is kept per page with a truthy text |
| `PageText.SkippedPageChangesNothing` | app/utils/pdf_loader.py:54 | a page with no text or empty text can be dropped without changing `full_text` |
| `PageText.NoneKept` | app/utils/pdf_loader.py:54 | no text is kept iff no page has a truthy text |
| `PageText.JoinLength` | app/utils/pdf_loader.py:57 | the joined text is as long as the parts plus one separator between each two neighbours |
| `PageText.JoinAppend` | app/utils/pdf_loader.py:57 | joining two non-empty runs of parts puts exactly one `"\n"` between their joins |
| `PageText.JoinEmpty` | app/utils/pdf_loader.py:57 | joined non-empty parts are empty iff there are no parts |
| `PageText.RawTextEmpty` | app/utils/pdf_loader.py:50-57 | `raw_text` is `""` iff no page has a truthy text |
| `PageText.FirstNewline` | app/utils/pdf_loader.py:57 | a helper of the reference `split` below, which the program never calls: the index of the first `"\n"`, or the length when there is none |
| `PageText.Split` | app/utils/pdf_loader.py:57 | a reference `split("\n")`, which the program never calls, defined only as the inverse of the join: it returns at least one part |
| `PageText.SplitJoin` | app/utils/pdf_loader.py:57 | splitting the joined text at `"\n"` gives back the page texts when none holds a newline: no spurious blank separators |
| `FieldMatch.LineEnd` | app/utils/pdf_loader.py:67 | where `.` stops: the first `"\n"` at or after `k`, or the end |
| `FieldMatch.LineEndScan` | app/utils/pdf_loader.py:67 | no newline lies between `k` and the end of its line |
| `FieldMatch.SpaceEnd` | app/utils/pdf_loader.py:67 | where a greedy `\s*` stops: the first non-whitespace at or after `k`, or the end |
| `FieldMatch.SpaceEndScan` | app/utils/pdf_loader.py:67 | every character a greedy `\s*` passes over is whitespace, newlines included |
| `FieldMatch.RunEnd` | app/utils/pdf_loader.py:79 | where a greedy `[\d,]+` stops: the first character outside the class |
| `FieldMatch.RunEndScan` | app/utils/pdf_loader.py:79 | every character of the run is in `[\d,]`, a digit `0`-`9` or a comma |
| `FieldMatch.Find` | app/utils/pdf_loader.py:62-64 | `find` returns `None` or a stripped text |
| `FieldMatch.SearchNone` | app/utils/pdf_loader.py:63 | `re.search` fails iff the pattern matches at no position |
| `FieldMatch.SearchLeftmost` | app/utils/pdf_loader.py:63 | `re.search` reports the match at the leftmost position where the pattern matches |
| `FieldMatch.FindSpec` | app/utils/pdf_loader.py:62-64 | `find` returns `None` iff nothing matches, and otherwise the stripped group 1 of the leftmost match |
| `FieldMatch.FindAt` | app/utils/pdf_loader.py:62-64 | a found value is the stripped group of a match at the leftmost matching position |
| `FieldMatch.FindLeftmost` | app/utils/pdf_loader.py:62-64 | a match at `i` with none before it is the one `find` reports |
| `FieldMatch.FindSomeOfMatch` | app/utils/pdf_loader.py:62-64 | a match anywhere means `find` returns a value |
| `FieldMatch.BacktrackNone` | app/utils/pdf_loader.py:67 | `\s*` then the tail fails iff the tail matches at no position the `\s*` can stop at |
| `FieldMatch.BacktrackLongestFirst` | app/utils/pdf_loader.py:67 | `\s*` gives back as little as it can: the group is the tail's at the last position where it matches |
| `FieldMatch.LazyColonNone` | app/utils/pdf_loader.py:79 | `.*?:\s*(...)` fails iff no colon of the line is followed by a matching tail |
| `FieldMatch.LazyColonFirst` | app/utils/pdf_loader.py:79 | the lazy `.*?` stops at the first colon of the line after which the tail matches |
| `FieldMatch.GreedyLabelNone` | app/utils/pdf_loader.py:72 | `.*GSTIN No\.\:\s*(.+)` fails iff no occurrence of the second label in the line is followed by a match |
| `FieldMatch.GreedyLabelLast` | app/utils/pdf_loader.py:72 | the greedy `.*` takes the last occurrence of the second label in the line that is followed by a match |
| `FieldMatch.SpacesThenFromTail` | app/utils/pdf_loader.py:67 | what `\s*(Tail)` captures is what the tail captures at some position |
| `FieldMatch.LazyColonFromTail` | app/utils/pdf_loader.py:79 | what `.*?:\s*(Tail)` captures is what the tail captures at some position |
| `FieldMatch.GreedyLabelFromTail` | app/utils/pdf_loader.py:72 | what `.*Second\s*(Tail)` captures is what the tail captures at some position |
| `FieldMatch.MatchAtFromTail` | app/utils/pdf_loader.py:63 | a match starts with the label, and its group is what the tail captures at some position |
| `FieldMatch.FindFromTail` | app/utils/pdf_loader.py:62-64 | a found value is the stripped tail capture at some position, and the label occurs in the text |
| `FieldMatch.FindNeedsLabel` | app/utils/pdf_loader.py:62-64 | a value is found only when the lower-cased text contains the lower-cased label |
| `FieldMatch.RestShape` | app/utils/pdf_loader.py:67 | `(.+)` captures a non-empty text that lies on one line |
| `FieldMatch.RestRoundTrip` | app/utils/pdf_loader.py:67 | `(.+)` captures exactly a non-empty single-line text followed by a newline or the end |
| `FieldMatch.AmountShape` | app/utils/pdf_loader.py:79 | `([\d,]+\.\d{2})` captures an amount: a run of digits `0`-`9` and commas, a point, and two digits |
| `FieldMatch.AmountRoundTrip` | app/utils/pdf_loader.py:79 | an amount is captured exactly, whatever follows it |
| `FieldMatch.TailShape` | app/utils/pdf_loader.py:67-86 | the amount tail captures an amount, and the other tails capture a non-empty single line |
| `FieldMatch.SingleLineTrim` | app/utils/pdf_loader.py:64 | stripping a single-line text leaves it single-line |
| `FieldMatch.AmountTrim` | app/utils/pdf_loader.py:64 | stripping an amount leaves it unchanged |
| `FieldMatch.FindShape` | app/utils/pdf_loader.py:62-86 | a value found through `.+` lies on one line, and a value found through the amount tail is an amount |
| `FieldMatch.SpacesThenSome` | app/utils/pdf_loader.py:67 | `\s*(Tail)` matches when the tail matches anywhere the `\s*` can stop |
| `FieldMatch.FindRestAfterLabel` | app/utils/pdf_loader.py:67 | for `Label:\s*(.+)`, the label followed by any character other than a newline gives a value |
| `FieldMatch.FindAmountAfterLabel` | app/utils/pdf_loader.py:81 | for `Label:\s*([\d,]+\.\d{2})`, the label, then whitespace, then an amount gives a value |
| `FieldMatch.SuffixLabelMatch` | app/utils/pdf_loader.py:63 | two patterns whose labels end alike and whose rest is the same give the same group after the label |
| `FieldMatch.FindMentions` | app/utils/pdf_loader.py:62-64 | a found value means the lower-cased text contains everything the lower-cased label contains |
| `FieldMatch.SuffixMatchAt` | app/utils/pdf_loader.py:68-69 | wherever a pattern matches, its suffix-label pattern matches `d` characters later with the same group |
| `FieldMatch.SuffixFind` | app/utils/pdf_loader.py:68-69 | a value found for a pattern means a value is found for its suffix-label pattern |
| `FieldMatch.SuffixNoEarlier` | app/utils/pdf_loader.py:68-69 | where the suffix-label pattern does not match, the longer pattern does not match `d` characters earlier |
| `FieldMatch.SuffixFindShadow` | app/utils/pdf_loader.py:68-69 | when the suffix-label pattern matches nowhere before the copy of a match, both `find`s return the same value |
| `PdfLoader.ReadPdf` | app/utils/pdf_loader.py:32-98 | `read_pdf` after extraction returns exactly `Load(tables, pages)`, or the error the table loop raises |
| `PdfLoader.ExtractItems` | app/utils/pdf_loader.py:66-87 | with distinct names, a dict display lists each rule once, in rule order, with its own `find` over the same text |
| `PdfLoader.ExtractGet` | app/utils/pdf_loader.py:66-87 | a name is in a display iff it is a rule name, and looking it up gives that rule's `find` result |
| `PdfLoader.RuleNamesDistinct` | app/utils/pdf_loader.py:66-87 | no two rules of a dict share a name |
| `PdfLoader.MetadataDisplay` | app/utils/pdf_loader.py:66-73 | `metadata` is exactly the six keys po_number … vendor_gstin, in order, each mapped to its own `find` |
| `PdfLoader.TaxesDisplay` | app/utils/pdf_loader.py:78-82 | `taxes` is exactly sgst, cgst and total_tax, each mapped to its own `find` |
| `PdfLoader.TotalsDisplay` | app/utils/pdf_loader.py:84-87 | `totals` is exactly total_value and amount_in_words, each mapped to its own `find` |
| `PdfLoader.ReorderedRules` | app/utils/pdf_loader.py:66-87 | listing the same rules in another order maps every name to the same value |
| `PdfLoader.SameNames` | app/utils/pdf_loader.py:66-87 | rule lists that are reorderings of each other have the same names |
| `PdfLoader.ExtractShape` | app/utils/pdf_loader.py:66-87 | a found field is stripped; it is an amount for an amount rule and a single line otherwise |
| `PdfLoader.AmountFields` | app/utils/pdf_loader.py:78-86 | every tax and every total other than amount_in_words that is found is an amount |
| `PdfLoader.LoadDocument` | app/utils/pdf_loader.py:32-98 | the result exists iff every table loads; it then holds Σ(rows − 1) clean line items, a `raw_text` that is empty iff no page has text, and dicts of 6, 3 and 2 keys |
| `PdfLoader.LoadRecordAt` | app/utils/pdf_loader.py:32-45 | row i ≥ 1 of table t is the document's line item after the records of the earlier tables |
| `PdfLoader.PoNumberLabelHasKeyword` | app/utils/pdf_loader.py:67 | the lower-cased PO-number label starts with the keyword "purchase order" |
| `PdfLoader.VendorLabelHasKeyword` | app/utils/pdf_loader.py:71-72 | both vendor patterns have the label "Vendor:", which lower-cases to a text starting with "vendor" |
| `PdfLoader.TotalTaxLabelHasKeyword` | app/utils/pdf_loader.py:81 | the lower-cased total-tax label holds the keyword "tax" |
| `PdfLoader.PoNumberMeansPurchaseOrder` | app/utils/pdf_loader.py:67 | under ASCII case folding, a text from which a PO number is found passes `is_purchase_order` (see "## Left out" for the long s) |
| `PdfLoader.VendorMeansPurchaseOrder` | app/utils/pdf_loader.py:71-72 | a text from which a vendor name or GSTIN is found passes `is_purchase_order` |
| `PdfLoader.TotalTaxMeansInvoice` | app/utils/pdf_loader.py:81 | a text from which a total tax is found passes `is_invoice` |
| `PdfLoader.DateLabelIsSuffix` | app/utils/pdf_loader.py:68-69 | the `po_date` pattern is the `delivery_date` pattern without the first 20 characters of its label |
| `PdfLoader.DeliveryDateGivesPoDate` | app/utils/pdf_loader.py:68-69 | whenever `delivery_date` is found, `po_date` is found too |
| `PdfLoader.PoDateShadowedByDeliveryDate` | app/utils/pdf_loader.py:68-69 | when no other `Date:` match comes first, `po_date` equals `delivery_date` |

## Left out

- The HTTP layer (`app/main.py`), the language-model agents (`app/agents/`, `app/llm.py`) and the pydantic schemas (`app/schemas.py`) are not part of this model. They are transport, external calls or declarations, with no deterministic behaviour of their own to prove.
- The uploaded file, the temporary file and the calls into camelot and pdfplumber are I/O and foreign code. Their results are the inputs of `PdfLoader.ReadPdf`: a sequence of tables, each a sequence of rows of cells, and a sequence of optional page texts.
- pandas is modelled only as far as the loader uses it. A table is a grid of cells that are strings or missing values. `df.columns = df.iloc[0]; df = df[1:]` takes row 0 as the header. `to_dict(orient="records")` is `dict(zip(header, row))`. Index labels, dtype conversion and non-string cell types (numbers) are not modelled. camelot returns string cells.
- Exceptions are values. `IndexError` on a table without rows is `EmptyTable`. `AttributeError` from stripping a non-string header is `HeaderNotText`. The model does not distinguish which Python exception class reaches the caller beyond these.
- Regular expressions are modelled for the eleven patterns the loader uses, not for Python's `re` in general. Each pattern is built from the shapes listed above, and the matcher follows Python's backtracking order for them.
- `re.IGNORECASE` and `str.lower` are modelled for ASCII letters only. Unicode case folding is not modelled.
- `PdfLoader.PoNumberMeansPurchaseOrder` holds for the ASCII folding only. Python's `re.IGNORECASE` matches the long s `ſ` (U+017F) for `s`, but `str.lower()` keeps it, so in the program `"Purchaſe Order Number: 5"` yields a PO number while `is_purchase_order` is False.
- `\d` is the ASCII digits `0`-`9`. Python's `\d` also accepts other Unicode decimal digits.
- `\s` and `str.strip()` share one whitespace set: ASCII whitespace, `\x1c`-`\x1f` and the Unicode spaces Python's `str.isspace` accepts.
- Python dicts are association lists in insertion order. Hashing is not modelled.
- `Validators.IsPurchaseOrder` and `Validators.IsInvoice` use ASCII `lower()`. A text whose non-ASCII letters change under Python's Unicode lowering can get a different verdict in the program.
