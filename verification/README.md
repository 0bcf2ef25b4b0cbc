# Finance app import/export core in Dafny

This project models the data-handling core of a multi-tenant personal-finance
web application:

- **CSV import.** `parseCSV` reads a header row and data rows into transaction
  records. It validates date, type and amount, and stops at the first bad row.
  `parseCSVLine` is its quote-aware character tokenizer.
- **CSV export.** `generateCSV` writes a fixed nine-column file. `escapeCSV`
  quotes the text fields.
- **OFX import.** `parseOFX` finds the `<STMTTRN>` statement-transaction blocks
  of an Open Financial Exchange download, using `extractOFXValue` and
  `parseOFXDate`.
- **OFX conversion.** `convertOFXToTransactions` turns bank records into import
  rows, taking the direction from the sign of the amount.
- **Onboarding.** The onboarding page generates the workspace slug and keeps it
  following the company name.
- **Transaction dialog.** It builds the record sent to the database, filters
  the category and to-account options, and resets and loads its fields.

## Modules

- `Results`: `Option`, `Result` and `OrEmpty` (`x || ""`).
- `Text`: the JavaScript string primitives the code relies on:
  - `trim` (the ECMA-262 white-space and line-terminator set);
  - `toLowerCase`, for ASCII;
  - `split` and `join` with a one-character separator;
  - `indexOf`.
- `Numbers`: JavaScript numbers as exact reals with `NaN` and the infinities.
  Also `Math.abs` and `parseFloat`: white space, sign, `Infinity`, digits,
  fraction and exponent, read as the longest numeric prefix.
- `Transactions`: the `transaction_type` enumeration and `TransactionCSVRow`.
- `CsvImport`:
  - `ParseCsvLine` and `ParseCsv` are methods with loops, proved against the
    functions `Tokenize` and `ParseCsvSpec`;
  - `BindRow` is the `forEach` that binds values to header names.
- `CsvExport`: `EscapeCsv`, `GenerateCsv`, and how an exported row reads back.
- `Ofx`:
  - `ParseOfx` is the `exec` loop, proved against `ParseOfxSpec`;
  - `ExtractOfxValue` and `ParseOfxDate` are functions;
  - `ConvertOfxToTransactions` is the conversion.
- `Onboarding`:
  - `GenerateSlug`, a function;
  - `OnboardingForm`, a class over the `companyName` and `companySlug` state.
- `TransactionForm`:
  - `BuildPayload` (`transactionData`) and the option filters, as functions;
  - `TransactionFormState`, a class over the dialog's state fields.

### Where the code departs from its own comments

- **Quotes.** `escapeCSV` doubles every quote inside a quoted value, as
  RFC 4180 does (`lib/utils/import-export.ts:118`). `parseCSVLine`, which its
  comment calls a parser of quoted values (line 68), does not read `""` back
  as one quote: it flips its in-quotes flag on every `"` and never copies a
  quote (lines 76-77). The model does what the code does:
  - `Fields` proves that no field ever holds a quote;
  - `EscapeRoundTripIff` proves that export-then-tokenize gives the values
    back exactly when no value holds a quote.
- **Blank lines.** The comment at `lib/utils/import-export.ts:29` says empty
  lines are skipped, but that test cannot fire, because `parseCSVLine` always
  returns at least one field. `BlankLineFails` proves that the blank line's
  own row fails with a missing-fields error. `BlankLineRejectsFile` proves
  that the whole import therefore fails, and that the error it reports is
  that missing-fields error when every earlier data line converts.

## Model

| member | source | states |
|---|---|---|
| Text.TrimSpec | lib/utils/import-export.ts:19 | `trim` leaves no white space at either end, never lengthens the text, and leaves already-trimmed text unchanged |
| Text.SpaceEndSpec | lib/utils/import-export.ts:19 | the leading white space `trim` skips is white space, and it stops at the first character that is not |
| Text.SpaceStartSpec | lib/utils/import-export.ts:19 | the trailing white space `trim` drops is white space, and it stops after the last character that is not |
| Text.LowerChar | lib/utils/import-export.ts:24 | `toLowerCase` maps `A`-`Z` to `a`-`z` (code point + 32) and leaves every other character alone |
| Text.LowerSpec | lib/utils/import-export.ts:24 | `toLowerCase` keeps the length and lower-cases position by position |
| Text.Split | lib/utils/import-export.ts:19 | `split` never returns an empty list, and no piece holds the separator |
| Text.SplitJoin | lib/utils/import-export.ts:111 | splitting a joined list gives the list back when no piece holds the separator |
| Text.JoinSplit | lib/utils/import-export.ts:19 | joining the pieces of a split with the same separator gives the text back |
| Text.FindFromSpec | lib/utils/import-export.ts:136 | the search finds an occurrence of the pattern, and the first one at or after the start; `None` means there is none |
| Numbers.Abs | lib/utils/import-export.ts:182 | `Math.abs` keeps NaN as NaN, makes every other value non-negative, leaves a non-negative value alone, negates a negative number and turns -Infinity into Infinity |
| Numbers.ParseFloatSpec | lib/utils/import-export.ts:47-48 | `parseFloat` is NaN exactly when the text does not start like a number; a leading `-` never gives a positive value; without one the result is NaN or non-negative |
| Numbers.ParseDigits | lib/utils/import-export.ts:47 | a plain string of decimal digits parses to its decimal value |
| Numbers.UnsignedDecimalSpec | lib/utils/import-export.ts:47 | an unsigned literal is NaN exactly when no digit starts it, and is otherwise a finite non-negative value |
| Transactions.KindName | lib/utils/import-export.ts:8 | each transaction type has one of the three lower-case names |
| Transactions.KindOf | lib/utils/import-export.ts:42 | a name stands for a type exactly when it is `income`, `expense` or `transfer`, and that type's name is the name itself |
| CsvImport.Fields | lib/utils/import-export.ts:69-87 | the tokenizer always yields at least one field, and no field holds a quote character |
| CsvImport.ParseCsvLine | lib/utils/import-export.ts:69-87 | the character loop computes exactly `Tokenize(line)`, which has at least one field |
| CsvImport.FieldsStep | lib/utils/import-export.ts:76-83 | one character step: a quote flips the flag and is dropped; a comma outside quotes starts a new field; any other character, or a comma inside quotes, is appended to the current field |
| CsvImport.JoinFieldsRemovesQuotes | lib/utils/import-export.ts:69-87 | joining the fields with commas gives the line minus its quote characters, so nothing but quotes is lost |
| CsvImport.RemoveQuotes | lib/utils/import-export.ts:76-77 | the quote-free form of a line has no quote, is no longer than the line, and is the line itself when it had no quote |
| CsvImport.FieldCount | lib/utils/import-export.ts:74-85 | the number of fields is the number of commas outside quotes plus one |
| CsvImport.FieldCountFrom | lib/utils/import-export.ts:74-85 | from any position, the fields still to come plus the separating commas already passed equal the total number of separating commas plus one |
| CsvImport.FieldsChunk | lib/utils/import-export.ts:81-83 | a chunk with no quote, and no comma unless read inside quotes, is appended whole to the current field |
| CsvImport.SingleField | lib/utils/import-export.ts:85 | a line with no quote and no comma is a single field |
| CsvImport.RowMapKeys | lib/utils/import-export.ts:32-34 | the row object has a key exactly for the header names |
| CsvImport.RowMapLast | lib/utils/import-export.ts:32-34 | each header name gets the trimmed value at the last position carrying that name, or "" when that position is past the end of the values |
| CsvImport.RowMapUntouched | lib/utils/import-export.ts:32-34 | a name that no later header carries keeps its value |
| CsvImport.RowMapSomePosition | lib/utils/import-export.ts:32-34 | every bound value is the trimmed value (or "") at some position of its header name |
| CsvImport.BindRow | lib/utils/import-export.ts:31-34 | the `forEach` loop builds exactly the row map `RowMap(headers, values)` |
| CsvImport.BuildRowSpec | lib/utils/import-export.ts:36-62 | a row fails with the missing-fields error exactly when date, type or amount is empty; with all three present, it fails with the invalid-type error exactly when the type names none of the three kinds in any letter case, and otherwise with the invalid-amount error exactly when the amount does not parse to a number above zero; it succeeds exactly when none of these holds; an accepted row carries the date, the lower-cased type, that strictly positive amount, the description or "", the category, account and notes as found, and the `fromaccount`/`from account` and `toaccount`/`to account` fallbacks; every error carries the line number |
| CsvImport.BindAndBuildIsBuildRow | lib/utils/import-export.ts:31-62 | binding the values and then validating is the validation of the finished row object |
| CsvImport.RowOfLineNumber | lib/utils/import-export.ts:28-62 | a data line either fails with an error naming its own line number, or yields a row with a non-empty date and a strictly positive amount |
| CsvImport.ConvertLine | lib/utils/import-export.ts:28-62 | the loop body for one data line computes the specified outcome `RowOf` |
| CsvImport.ParseCsv | lib/utils/import-export.ts:18-66 | the method computes exactly `ParseCsvSpec(text)`: converting the data lines in order and stopping at the first failure |
| CsvImport.ConvertStep | lib/utils/import-export.ts:27-63 | one loop turn: a failing line is the result; a converting line is appended to the rows already done |
| CsvImport.ConvertSuccess | lib/utils/import-export.ts:27-63 | the conversion succeeds exactly when every line converts, and then gives one row per line, in order |
| CsvImport.ConvertFailure | lib/utils/import-export.ts:27-63 | a failure is the error of a line such that every line before it converted |
| CsvImport.ConvertFailsAt | lib/utils/import-export.ts:27-63 | one line that does not convert makes the whole conversion fail |
| CsvImport.ConvertFailureBefore | lib/utils/import-export.ts:27-63 | the reported error comes from a line at or before any failing line |
| CsvImport.ParseCsvTooFewLines | lib/utils/import-export.ts:19-22 | parseCSV fails with the too-few-lines error exactly when the trimmed text has fewer than two lines |
| CsvImport.ParseCsvRow | lib/utils/import-export.ts:27-65 | on success there is exactly one row per data line, in order, and each has a non-empty date and a strictly positive amount |
| CsvImport.ParseCsvFirstError | lib/utils/import-export.ts:37-50 | a row error names a data line by its 1-based number (2 or more), and it is that line's own error |
| CsvImport.ParseCsvErrorNoLater | lib/utils/import-export.ts:27-63 | a bad data line makes parseCSV fail, with an error naming that line or an earlier one |
| CsvImport.DataLinesError | lib/utils/import-export.ts:27-63 | a failed conversion of the data lines names a line in range, and that line's own conversion gives the error |
| CsvImport.DataLinesRow | lib/utils/import-export.ts:27-63 | when all data lines convert, data line k yields row k - 1, with a non-empty date and a strictly positive amount |
| CsvImport.TrimmedAway | lib/utils/import-export.ts:33 | trim gives "" only for text made entirely of white space |
| CsvImport.BlankLineFails | lib/utils/import-export.ts:27-39 | a blank data line fails with the missing-fields error for its line; the empty-line skip never fires, because parseCSVLine always returns a field (line 85) |
| CsvImport.BlankLineRejectsFile | lib/utils/import-export.ts:27-39 | a text with a blank data line is rejected as a whole, and when every earlier data line converts the error is the missing-fields error of the blank line |
| CsvExport.DoubleQuotes | lib/utils/import-export.ts:118 | doubling quotes never shortens a value, and leaves a quote-free value unchanged |
| CsvExport.UndoubleDoubleQuotes | lib/utils/import-export.ts:118 | reading doubled quotes as one quote (section 2 of RFC 4180) undoes the doubling |
| CsvExport.EscapeCsv | lib/utils/import-export.ts:115-121 | escapeCSV gives "" for "", and leaves a value with no comma, quote or line feed unchanged |
| CsvExport.EscapeCsvReadsBack | lib/utils/import-export.ts:115-121 | a value that needs quoting is enclosed in quotes, and its inside reads back as the value under section 2 of RFC 4180 |
| CsvExport.EscapedChunk | lib/utils/import-export.ts:115-121 | an escaped quote-free value followed by more text tokenizes with the value at the front of the first field |
| CsvExport.EscapeJoinTokenize | lib/utils/import-export.ts:102-111 | escaping quote-free values and joining them with commas reads back through parseCSVLine as the same values |
| CsvExport.EscapeRoundTripIff | lib/utils/import-export.ts:115-121 | the escape-join-tokenize (parseCSVLine at lines 69-87) round trip gives the values back exactly when no value holds a quote |
| CsvExport.FallbackName | lib/utils/import-export.ts:93-96 | the name is the first of the two relation names that is present and non-empty, otherwise the second one as it is, otherwise "" |
| CsvExport.RowValues | lib/utils/import-export.ts:91-108 | a row has as many values as the header has columns |
| CsvExport.ExportRow | lib/utils/import-export.ts:98-108 | an exported row has as many fields as the header; date, type and amount are written as they are and the six text fields are each passed through escapeCSV |
| CsvExport.RowLines | lib/utils/import-export.ts:111 | there is one row line per transaction, and row line k is transaction k's row joined with commas |
| CsvExport.ExportLines | lib/utils/import-export.ts:111 | the file has one line more than there are transactions |
| CsvExport.ExportLineAt | lib/utils/import-export.ts:90-111 | line 0 is the fixed header and line k + 1 is the row of transaction k |
| CsvExport.HeaderSingleLine | lib/utils/import-export.ts:90 | the header line holds no line feed |
| CsvExport.ExportRowSingleLine | lib/utils/import-export.ts:98-108 | a row whose values hold no line feed is one line |
| CsvExport.ExportLinesSingle | lib/utils/import-export.ts:111 | when no value holds a line feed, no line of the file holds one |
| CsvExport.GenerateCsvLines | lib/utils/import-export.ts:89-113 | when no value holds a line feed, splitting the file at line feeds gives back the header line and one line per transaction, in order |
| CsvExport.ExportRowTokenizes | lib/utils/import-export.ts:98-108 | with date, type and amount free of comma, quote and line feed, and the six text fields free of quotes, parseCSVLine reads a generated row back as its nine values |
| CsvExport.JoinAvoids | lib/utils/import-export.ts:111 | joining adds no character other than the separator |
| CsvExport.EscapeAllAvoids | lib/utils/import-export.ts:102-107 | escaping adds no character other than quotes |
| Ofx.RunEndSpec | lib/utils/import-export.ts:165 | the `[^<]+` run holds no `<`, and it stops at a `<` or at the end |
| Ofx.FirstTagMatch | lib/utils/import-export.ts:165-166 | a match lies after the start, and a character other than `<` follows its opening tag |
| Ofx.FirstTagMatchSpec | lib/utils/import-export.ts:165-166 | the match is the leftmost `<TAG>` followed by a character other than `<`; a tag followed by `<` or by the end is passed over; `None` means there is no match |
| Ofx.CaptureSpec | lib/utils/import-export.ts:165-167 | the capture is a non-empty run with no `<`, ending at the next `<` or at the end; trimmed, it is still free of `<` |
| Ofx.ExtractOfxValueSpec | lib/utils/import-export.ts:164-168 | extractOFXValue is "" without a match; otherwise it is the trimmed capture after the first matching tag, up to the next `<`; either way it is trimmed and holds no `<` |
| Ofx.Substring | lib/utils/import-export.ts:172-174 | `substring` clamps both indices to the length |
| Ofx.ParseOfxDateSpec | lib/utils/import-export.ts:170-176 | the date is the first eight characters (fewer when the input is shorter) plus two hyphens; for 8 or more characters the hyphens follow the year and the month, and dropping them gives the first eight characters back |
| Ofx.ParseOfxDateIgnoresTime | lib/utils/import-export.ts:170-176 | inputs that agree on their first eight characters give the same date: time and time zone are ignored |
| Ofx.NextBlock | lib/utils/import-export.ts:136-139 | a match starts at or after `lastIndex` and moves `lastIndex` forward |
| Ofx.NextBlockSpec | lib/utils/import-export.ts:136-140 | a match is the leftmost `<STMTTRN>` at or after `lastIndex`, the block up to the first `</STMTTRN>` after it (lazy `*?`), and the new `lastIndex` just past that closing tag; there is no match exactly when no opening tag has a closing tag after it |
| Ofx.MatchesInOrder | lib/utils/import-export.ts:136-139 | the blocks visited do not overlap and come in document order |
| Ofx.ReadBlockSpec | lib/utils/import-export.ts:140-158 | a block is kept exactly when TRNTYPE, DTPOSTED, TRNAMT and FITID are all non-empty; the date is converted, the amount read with parseFloat, an empty name becomes "Unknown", and the memo is always set |
| Ofx.ReadBlocks | lib/utils/import-export.ts:139-159 | never more transactions than blocks |
| Ofx.ReadBlocksStep | lib/utils/import-export.ts:139-159 | one `exec` plus one block read extends the accumulated transactions by that block's transaction, if it has one |
| Ofx.ParseOfx | lib/utils/import-export.ts:134-162 | the `exec` loop returns exactly `ParseOfxSpec(text)`: the kept transactions of all blocks, in order |
| Ofx.ReadBlockComplete | lib/utils/import-export.ts:149-157 | every kept transaction has a non-empty type, FITID and name, and a memo |
| Ofx.ParseOfxComplete | lib/utils/import-export.ts:134-162 | every transaction parseOFX returns has a non-empty type, FITID and name, and a memo |
| Ofx.ReadBlocksAll | lib/utils/import-export.ts:139-159 | when every block is complete, there is one transaction per block, in order |
| Ofx.ReadBlocksDrops | lib/utils/import-export.ts:149 | an incomplete block is dropped silently: removing it from the blocks changes nothing |
| Ofx.ParseOfxBlocks | lib/utils/import-export.ts:134-162 | parseOFX gives one transaction per block in document order when all blocks are complete, and an incomplete block contributes nothing |
| Ofx.OfxToRow | lib/utils/import-export.ts:179-185 | income exactly when the amount is >= 0 (zero is income), expense otherwise; the amount is the absolute value; name becomes the description and memo the notes; category and accounts are unset |
| Ofx.ConvertOfxToTransactions | lib/utils/import-export.ts:178-186 | keeps length and order: row i is the conversion of bank record i |
| Ofx.SignRecovered | lib/utils/import-export.ts:181-182 | the signed amount can be recovered from type and absolute amount; a NaN amount becomes a NaN expense; transfer is never produced |
| Ofx.ConvertAppend | lib/utils/import-export.ts:178-186 | converting a concatenation converts each part in order |
| Onboarding.AlnumStart | app/onboarding/page.tsx:31 | the next `[a-z0-9]` character, with everything skipped outside that class |
| Onboarding.CollapseSpec | app/onboarding/page.tsx:31 | the replacement writes only slug characters, never two hyphens in a row, starts with a hyphen exactly when the text starts outside `[a-z0-9]`, and keeps the `[a-z0-9]` characters in order |
| Onboarding.AlnumsSkip | app/onboarding/page.tsx:31 | skipping characters outside `[a-z0-9]` keeps the same letters and digits |
| Onboarding.AlnumsAppend | app/onboarding/page.tsx:31 | the letters and digits of a concatenation are those of each part |
| Onboarding.DropLeadingSpec | app/onboarding/page.tsx:32 | removing a leading hyphen leaves no hyphen in front and keeps the letters and digits |
| Onboarding.DropTrailingSpec | app/onboarding/page.tsx:32 | removing a trailing hyphen from text that does not start with one leaves a slug with the same letters and digits |
| Onboarding.TrimHyphensSpec | app/onboarding/page.tsx:32 | removing the end hyphens leaves a well-formed slug with the same letters and digits |
| Onboarding.GenerateSlugSpec | app/onboarding/page.tsx:28-33 | generateSlug gives only `[a-z0-9-]`, no hyphen at either end, no `--`, and the letters and digits of the lower-cased name in order |
| Onboarding.AlnumEnd | app/onboarding/page.tsx:31 | the end of the `[a-z0-9]` run that starts at an index: everything before it is in the class, the character at it is not |
| Onboarding.GroupsSpec | app/onboarding/page.tsx:31 | every group, a maximal run that the replacement leaves between hyphens, is a non-empty run of `[a-z0-9]` |
| Onboarding.CollapseGroups | app/onboarding/page.tsx:31 | the replacement writes the groups of the text with exactly one hyphen between each two, one hyphen in front when the text starts outside `[a-z0-9]`, and one at the end when characters outside the class follow the last group |
| Onboarding.TrimCollapse | app/onboarding/page.tsx:31-32 | removing the end hyphens after the replacement leaves exactly the groups joined by single hyphens |
| Onboarding.GenerateSlugGroups | app/onboarding/page.tsx:28-33 | generateSlug is the groups of the lower-cased name joined by single hyphens, "" when the name has no letter or digit (so "Acme Inc" gives "acme-inc", never "acmeinc") |
| Onboarding.CollapseSlugTail | app/onboarding/page.tsx:31 | the replacement leaves slug text with single hyphens unchanged |
| Onboarding.LowerSlug | app/onboarding/page.tsx:30 | lower-casing leaves slug characters unchanged |
| Onboarding.GenerateSlugFixedPoint | app/onboarding/page.tsx:28-33 | generateSlug (also applied to typed slugs at line 240) leaves a text unchanged exactly when it is a well-formed slug, and generateSlug is idempotent |
| Onboarding.InitialAccountName | app/onboarding/page.tsx:113-120 | the first account's name is never empty, and is the entered name when one was entered ("Main Account" otherwise) |
| Onboarding.OnboardingForm.constructor | app/onboarding/page.tsx:18-19 | the form starts with an empty name and an empty slug |
| Onboarding.OnboardingForm.HandleCompanyNameChange | app/onboarding/page.tsx:35-40 | the name is replaced; the slug becomes generateSlug(new name) when it was empty or still generated from the old name; an edited slug is kept; the slug stays well formed |
| Onboarding.OnboardingForm.HandleSlugInput | app/onboarding/page.tsx:240 | a typed slug is stored normalised by generateSlug, a well-formed one unchanged, and the name is untouched |
| TransactionForm.NullIfEmpty | components/finance/transaction-form.tsx:140-146 | an empty field becomes null and a non-empty one passes through unchanged |
| TransactionForm.PayloadRouting | components/finance/transaction-form.tsx:136-147 | a transfer sets from/to account ids with null account and category; income and expense set account and category (null when none) with null from/to; the selected account appears exactly once; empty description and notes become null; type, tenant, parsed amount and ISO date are carried over |
| TransactionForm.FilteredCategories | components/finance/transaction-form.tsx:194 | the category options are exactly the categories of the current type |
| TransactionForm.FilteredCategoriesKeepsAll | components/finance/transaction-form.tsx:194 | categories all of the current type pass the filter whole and in order |
| TransactionForm.FilteredCategoriesSpec | components/finance/transaction-form.tsx:194 | filtering twice changes nothing; a transfer is offered no category when every category is income or expense |
| TransactionForm.ExcludeAccount | components/finance/transaction-form.tsx:344-345 | the to-account options are exactly the accounts other than the selected one |
| TransactionForm.ExcludeAccountCount | components/finance/transaction-form.tsx:344-345 | with distinct ids, the options are one fewer than the accounts when the selected one is among them, and all of them otherwise |
| Results.OrEmpty | components/finance/transaction-form.tsx:78-83 | a missing value loads as "", a present one as itself |
| TransactionForm.TransactionFormState.constructor | components/finance/transaction-form.tsx:54-65 | the dialog starts with the default type, empty fields, no accounts or categories, and today's date |
| TransactionForm.TransactionFormState.ResetForm | components/finance/transaction-form.tsx:120-127 | amount, description, category, to-account and notes are cleared and the date is today; type, selected account and the lists are unchanged |
| TransactionForm.TransactionFormState.LoadAccounts | components/finance/transaction-form.tsx:100-105 | a returned list replaces the accounts; with no selection yet and a non-empty list, the first account becomes the selection; an existing selection is kept; no data changes nothing |
| TransactionForm.TransactionFormState.LoadCategories | components/finance/transaction-form.tsx:117 | a returned list replaces the categories; nothing else changes |
| TransactionForm.TransactionFormState.LoadEdit | components/finance/transaction-form.tsx:74-88 | an edited transaction fills every field, missing values becoming ""; without one the type returns to the default and the form is reset, keeping the selected account |
| TransactionForm.TransactionFormState.CategoryOptions | components/finance/transaction-form.tsx:194 | the options are exactly the loaded categories of the current type |
| TransactionForm.TransactionFormState.ToAccountOptions | components/finance/transaction-form.tsx:344-345 | the options are exactly the loaded accounts other than the selected one |
| TransactionForm.TransactionFormState.Submit | components/finance/transaction-form.tsx:129-171 | without a tenant nothing is sent and nothing changes; otherwise the record built from the current fields is sent, and the form is reset once the database accepted it; type, selected account and the lists never change |

## Left out

- `generatePDFReport` and `downloadCSV` in `lib/utils/import-export.ts`: jsPDF layout, floating-point formatting and browser download plumbing.
- `new Date(...).toLocaleDateString("en-US")`, `Number.prototype.toString`, `new Date(...).toISOString()` and "today" are parameters (`formatDate`, `renderAmount`, `toIso`, `dateOnly`, `today`). The model does not say what text they produce.
- Numbers.ParseFloat: numbers are exact reals, so IEEE-754 rounding, overflow to Infinity, underflow to zero and negative zero are not modelled. `-0` would count as income in `convertOFXToTransactions`, as any zero does.
- Text.Lower: `toLowerCase` is modelled for ASCII letters only; other characters are left alone. Full Unicode case mapping differs for two characters that lower-case into ASCII: the Kelvin sign U+212A becomes `k`, and U+0130 becomes `i` followed by the combining dot U+0307. This changes only `generateSlug`, where such a character gives `k` or `i-` in the code and `-` in the model. The type check and the header lookups reach the same verdict either way, because none of `income`, `expense`, `transfer` or the header names holds a `k`, and the combining dot after `i` never matches.
- Text.LowerSpec: "keeps the length" holds for the model's `Lower`. `toLowerCase` counts UTF-16 code units and lengthens U+0130 from one to two.
- Ofx.ParseOfxDate: strings are sequences of Unicode scalar values, while `substring` counts UTF-16 code units. The two differ only when `DTPOSTED` holds a character outside the Basic Multilingual Plane.
- `Text.Split` and `Text.FindFrom` model `split` and the regular expression search for the one-character separators and the fixed tags the code uses. General regular expressions are not modelled.
- CsvImport.ParseCsv: the thrown `Error` is a `Failure` result that carries the error kind and the row number, not the message text.
- The `exec` loop of `parseOFX` uses a global regular expression's `lastIndex`. The model keeps `lastIndex` as an explicit loop variable rather than as state of a shared regex object.
- Every Supabase call is left out: the queries in `fetchAccounts` and `fetchCategories`, the insert and update in `handleSubmit`, the tenant, user and account creation in `handleCreateTenant`, and `handleDelete`. What a query returns is a parameter, and whether a save succeeded is the `saved` flag.
- React's asynchronous state updates are not modelled. In particular, `fetchAccounts` reads `accountId` from the closure of the render that started it. The model reads the current field, as if the state were up to date.
- The rest of the onboarding and transaction dialogs are left out: the currency, account type and initial balance fields, the step navigation and the JSX. Only the slug, the account-name default, the payload and the option lists carry rules.
- `handleCompanyNameChange` compares with `companySlug` and `companyName` as read at render time; the model uses the fields' current values.
- The signup page, `mockData`, the other forms, the sidebar and the type declaration files: no logic of the core.
