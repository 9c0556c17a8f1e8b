# Personal finance tracker: amount normaliser, transaction store and dashboard figures

The system is a small personal-finance web application. Its transactions live in a
Google Sheets worksheet with one row per transaction. Row 1 holds the seven column
names `id, date, category, type, amount, payment_method, description`. A dashboard
page shows, for a chosen month:
- the month's income ("Receita") and expense ("Despesa");
- the balance accumulated up to the end of that month;
- a pie chart of the month's expenses;
- a bar chart of the month's totals per (date, type).

This Dafny project models three parts of that system:

- **The amount normaliser** (`clean_amount`). A cell of the sheet is a native
  number, a boolean, blank, or text. Text can be in US notation ("570.15") or
  Brazilian notation ("1.000,50", "42,00"), with or without a currency marker
  ("R$ 42,00"). The normaliser is total: text it cannot read becomes 0.
- **The transaction store** (`init_db`, `add_transaction`, `get_transactions`,
  `get_transaction`, `update_transaction`, `delete_transaction`).
  - The store works on a worksheet object. It uses six operations of the
    worksheet: read cell A1, read all records (`get_all_records`), find a cell
    by its text, append a row, write one cell, and delete a row.
  - The worksheet is modelled as a class with a `seq` of rows, and the store
    operations are methods that change it.
  - Each method is tied to a function giving the sheet's new contents. Lemmas
    about those functions state the round trips (add then get, update then
    get, delete then get) and the frame conditions (which rows change and
    which do not).
- **The dashboard figures** (the non-UI computations of `main` in `app.py`).
  These are the flow window, the accumulated window, the income, expense and
  balance figures, the pie chart's records and the (date, type) group-by.
  They are pure functions over a sequence of transactions whose dates are
  already parsed.

Files:
- `decimal_text.dfy` (module `DecimalText`): digit strings, their values, and the writing of numbers.
- `dates.dfy` (module `Dates`): calendar dates, their ISO text `YYYY-MM-DD`, and their order.
- `amount.dfy` (module `Amount`): the normaliser and its properties.
- `worksheet.dfy` (module `Sheet`): the worksheet class.
- `store.dfy` (module `Store`): the store operations and their properties.
- `dashboard.dfy` (module `Dashboard`): the dashboard figures and their properties.

Where the code and its comments or documentation disagree, the model follows the code:

- **Negative amounts are not clamped.** The code passes a leading '-' through to
  `float`, so "-12,50" reads as -12.5 (`Amount.NegativeBrText`).
- **"1.000" reads as 1.0, not 1000.** The comment at src/database.py:74 says such text
  takes the Brazilian branch. The US branch at lines 66-69 catches it first: one '.'
  and no ','. A value with two or more group separators ("1.000.000") does reach the
  Brazilian branch (`Amount.SingleGroupReadAsDecimal`, `Amount.MultiGroupReadAsThousands`).
- **Booleans.** A boolean is an `int` in Python, so `True`/`False` normalise to 1.0/0.0.
- **`find` searches every cell, not only the id column.** An identifier that also
  appears as the text of another cell can hit that cell's row instead.
  - The store's lemmas state this hazard. For example, deleting "id" removes the
    header row (`Store.DeleteColumnName`).
  - The update and delete round trips assume that the identifier's first
    occurrence is in column 1.
- **A header is guaranteed only after a read.** `add_transaction` does not call
  `init_db`. On a sheet with no rows, the first transaction lands in row 1 and
  is then taken for the header (`Store.AddOnEmptySheet`).
- **Timeline order.** The group-by's rows come out ordered by date, then by type
  (pandas sorts group keys).

## Model

| member | source | states |
|---|---|---|
| Amount.CleanAmount | src/database.py:46-82 | A native number comes back unchanged. A boolean gives 1 or 0. A value that is neither number nor text gives 0. Text is decoded after every "R$" is removed and whitespace is stripped. |
| Amount.UsDecimalForm | src/database.py:66-67 | The US-branch test holds exactly when the text has no ',' and exactly one '.'. |
| Amount.BrazilianForm | src/database.py:77 | The Brazilian rewrite leaves no ',' behind and is shorter than the text by exactly its number of '.'. |
| Amount.CleanText | src/database.py:58-80 | Empty text gives 0. Any other result is either 0 or the `float` value of the text itself or of its Brazilian rewrite ('.' dropped, ',' made '.'): the normaliser never raises and never invents a value. |
| Amount.Strip | src/database.py:56 | `strip()` leaves no whitespace at either end and never lengthens the text. |
| Amount.StripSpec | src/database.py:56 | `strip()` is a contiguous slice of the text: everything before it and after it is whitespace, and it neither begins nor ends with whitespace. |
| Amount.StripSurroundingSpace | src/database.py:56 | A whitespace character added at either end does not change the stripped text. |
| Amount.RemoveCurrency | src/database.py:56 | `replace("R$", "")` never lengthens the text, and text in which no 'R' is directly followed by '$' ("BRL 5", "R 10,00") comes back unchanged. |
| Amount.RemoveCurrencyAfter | src/database.py:56 | In text whose first "R$" follows a marker-free prefix a, the marker is removed, a is kept, and the removal continues on the rest. |
| Amount.Trimmed | src/database.py:56 | The cleaned text never lengthens, has no whitespace at either end, and for text without an 'R' is just the stripped text. |
| Amount.PyFloat | src/database.py:69-78 | `float` of text that is empty after stripping is an error (None). |
| Amount.PyFloatSurroundingSpace | src/database.py:69-78 | `float` ignores whitespace added at either end. |
| Amount.ReplaceChar | src/database.py:77 | `replace(c, d)` keeps the length and changes exactly the occurrences of c. |
| Amount.RemoveChar | src/database.py:77 | `replace(c, "")` leaves no c behind and is shorter by exactly the number of c's. |
| Amount.RemoveCharKeepsOrder | src/database.py:77 | Every other character survives `replace(c, "")` in order: the character at position i moves to i minus the number of c's before it. |
| Amount.CleanUsDecimal | src/database.py:66-69 | Trimmed "digits.digits" is read with '.' as the decimal point. |
| Amount.CleanBrDecimal | src/database.py:73-78 | Trimmed "digits,digits" is read with ',' as the decimal point. |
| Amount.UsTextRoundTrip | src/database.py:66-69 | An amount n + c/100 written in US notation ("1234.05") decodes back to n + c/100. |
| Amount.BrTextRoundTrip | src/database.py:73-78 | An amount written in Brazilian notation ("1234,05") decodes back to the same amount. |
| Amount.GroupedDigits | src/database.py:77 | Removing the thousands separators from a grouped writing ("12.345.678") leaves the plain digits of the same number. |
| Amount.CleanBrWithSeparators | src/database.py:73-78 | Text with a ',' whose '.'-free form is "digits,digits" is read as that form. |
| Amount.GroupedBrTextRoundTrip | src/database.py:73-78 | An amount written with thousands groups and a decimal comma ("1.234.567,89") decodes back to that amount. |
| Amount.SingleGroupReadAsDecimal | src/database.py:66-69 | A thousands-grouped integer with exactly one separator ("1.000", "12.345") is read as US decimal text: n/1000. |
| Amount.MultiGroupReadAsThousands | src/database.py:73-78 | With two or more separators ("1.000.000") the text takes the Brazilian branch and reads as the whole number. |
| Amount.PlainIntegerText | src/database.py:73-78 | Plain digit text ("42", "100") has no '.', skips the US branch, passes the Brazilian rewrite unchanged and reads as its whole number. |
| Amount.NegativeIntegerText | src/database.py:73-78 | "-" followed by plain digits ("-7") reads as the negated whole number. |
| Amount.NegativeUsText | src/database.py:66-69 | "-n.cc" takes the US branch and decodes to -(n + cc/100): the sign is kept, and the '.' is not taken for a thousands separator. |
| Amount.CleanNegativeUsDecimal | src/database.py:66-69 | Trimmed "-digits.digits" passes the US test and decodes to the negated value of "digits.digits". |
| Amount.CurrencyPrefixIgnored | src/database.py:56 | An "R$ " marker in front of the text does not change the amount. |
| Amount.NegativeBrText | src/database.py:73-78 | "-n,cc" decodes to -(n + cc/100): the sign is kept, not clamped. |
| Amount.CleanNegativeBrDecimal | src/database.py:73-78 | Trimmed "-digits,digits" decodes to the negated value of "digits.digits". |
| Amount.NegativeBrazilianForm | src/database.py:66-77 | "-digits,digits" is not US form, and its rewrite is "-digits.digits". |
| Amount.PyFloatNegative | src/database.py:78 | `float` of "-" followed by unsigned decimal text is the negated value. |
| Amount.NoDigitsNoParse | src/database.py:69-80 | In the modelled float grammar (see Amount.PyFloat under Left out), text with no digit cannot be parsed as a number. |
| Amount.NoDigitsIsZero | src/database.py:58-82 | In the modelled float grammar (see Amount.PyFloat under Left out), text with no digit at all (words, a bare "R$", blanks) normalises to 0. |
| Amount.NormaliserExamples | src/database.py:46-82 | The documented examples: 100.5 stays 100.5, "570.15" → 570.15, "42,00" → 42, "R$ 42,00" → 42, "1.000,50" → 1000.5, "1.000" → 1, "1.000.000" → 1000000, "" → 0, "garbage" → 0. |
| Dates.DateText | src/database.py:95 | `str(date)` is ten characters "YYYY-MM-DD", and its three number fields are the date's year, month and day. |
| Dates.DateTextRoundTrip | src/database.py:95 | Reading the stored date text back gives the same date. |
| Dates.DateBeforeOrder | app.py:101 | Chronological order is a strict total order. |
| Sheet.CellA1 | src/database.py:38 | `acell('A1').value`: the first cell of the first row, or blank when the sheet or its first row is empty. |
| Sheet.FindCell | src/database.py:144 | `find` returns the first matching cell in row-major order. It returns nothing exactly when no cell holds the text. |
| Sheet.FindInRow | src/database.py:144 | The first column of a row holding the text, or the row's length when none does. |
| Sheet.SetCell | src/database.py:162-167 | A cell write sets that cell, pads a short row with blanks, and leaves every other cell as it was. |
| Sheet.AllRecords | src/database.py:110 | `get_all_records`: one seven-cell record per row after row 1, with blank or missing cells read as empty text. |
| Sheet.Worksheet.A1 | src/database.py:38 | `acell('A1').value` on the current rows: the first cell of the first row, or blank when there is none. |
| Sheet.Worksheet.Records | src/database.py:110 | `get_all_records` on the current rows: one seven-cell record per row after row 1, each cell the row's cell or empty text when blank or missing. |
| Sheet.Worksheet.Find | src/database.py:144 | The 1-based cell reference of `FindCell`'s answer. |
| Sheet.Worksheet.AppendRow | src/database.py:41 | `append_row` adds the row after the last one. |
| Sheet.Worksheet.UpdateCell | src/database.py:162 | `update_cell(r, c, v)` changes row r by one `SetCell`, and no other row. |
| Sheet.Worksheet.DeleteRows | src/database.py:147 | `delete_rows(r)` removes row r, and later rows move up. |
| Store.HeaderRow | src/database.py:40 | The header row holds the seven column names in order. |
| Store.AfterInit | src/database.py:38-41 | `init_db` keeps every row and appends exactly one row, the header, exactly when A1 is blank. |
| Store.InitDb | src/database.py:33-45 | The sheet becomes `AfterInit` of the old sheet: the header is appended only when A1 is blank. |
| Store.InitIdempotent | src/database.py:38-41 | After `init_db`, A1 holds a value exactly when the sheet was empty or A1 already held one. Running it twice equals running it once under the same condition. Otherwise, when rows exist but A1 is blank, every run appends another header. |
| Store.AddTransaction | src/database.py:84-103 | Exactly one row, `[id, str(date), category, type, amount, payment_method, description]`, is appended with a fresh id, and every existing row is unchanged. |
| Store.AddThenGet | src/database.py:84-137 | On a sheet with its header, adding a transaction adds exactly one record at the end, and looking up its id finds it with the fields written. |
| Store.AddOnEmptySheet | src/database.py:93-118 | On a sheet with no rows, the new row becomes row 1 and reads back as no record. A later read adds no header, because A1 is no longer blank. |
| Store.AddKeepsIdsDistinct | src/database.py:89-103 | Appending with a fresh identifier keeps the data rows' identifiers pairwise distinct. |
| Store.NewRow | src/database.py:93-101 | The appended row has seven cells: the id, `str(date)`, category, type, the amount as a native number, payment method and description. |
| Store.ToRecord | src/database.py:120-126 | A bulk-read record keeps its cells in the fixed column order, and its amount is `clean_amount` of the amount cell (text such as "R$ 42,00" decoded, a native number kept as it is). |
| Store.RecordOfRow | src/database.py:120-126 | A row's record is the `get_all_records` record of that row with its amount passed through the normaliser. |
| Store.ReadRecords | src/database.py:110-126 | One record per row after the header, in sheet order: the `get_all_records` record of each row, with every amount passed through the normaliser. |
| Store.GetTransactions | src/database.py:105-128 | Returns the records of the sheet. A sheet without data rows is first given to `init_db`. |
| Store.AfterRead | src/database.py:113-116 | A read keeps every row. It changes the sheet exactly when the sheet has no data rows and A1 is blank, and then only by appending the header. |
| Store.ReadEmptySheet | src/database.py:113-118 | Reading an empty sheet writes the header and returns no transactions. |
| Store.Lookup | src/database.py:136-137 | The first record whose id is the given text, or None exactly when no record has it. |
| Store.GetTransaction | src/database.py:133-137 | `get_transaction` returns `Lookup` over the records that `get_transactions` reads. |
| Store.GetFindsIdRow | src/database.py:136-144 | When `find` hits column 1 of data row h, get returns that row's record. |
| Store.MissingIdNotFound | src/database.py:136-146 | A non-empty identifier that `find` does not see is not found by get either. |
| Store.AfterDelete | src/database.py:144-147 | With no hit the sheet is unchanged. Otherwise only the hit row is removed, earlier rows stay, and later rows move up by one. |
| Store.DeleteTransaction | src/database.py:139-147 | The sheet becomes `AfterDelete` of the old sheet. |
| Store.DeleteRemovesRecord | src/database.py:144-147 | Deleting removes exactly the record of the hit row, and the records after it move up. |
| Store.DeleteThenGet | src/database.py:133-147 | When the identifier is in one row only, after deleting it neither `find` nor get finds it. |
| Store.DeleteKeepsIdsDistinct | src/database.py:144-147 | Deleting keeps the remaining identifiers pairwise distinct. |
| Store.DeleteColumnName | src/database.py:144-147 | Deleting with a column name ("id", "date", …) as identifier removes the header row. |
| Store.AfterUpdate | src/database.py:154-167 | With no hit the sheet is unchanged. Otherwise only the hit row is rewritten, its row count is kept, and every other row stays. |
| Store.UpdateTransaction | src/database.py:149-167 | The sheet becomes `AfterUpdate` of the old sheet, through six single-cell writes. |
| Store.RewriteRow | src/database.py:162-167 | The six writes on row r change that row to `Rewrite` of it, and no other row. |
| Store.WriteHead | src/database.py:162-164 | The date, category and type writes. |
| Store.WriteTail | src/database.py:165-167 | The amount, payment-method and description writes. |
| Store.Rewrite | src/database.py:162-167 | After the six writes, columns 2–7 hold the new values, column 1 keeps the id, later columns are untouched, and a short row is padded to seven cells. |
| Store.RewriteReadsBack | src/database.py:162-167 | A rewritten row reads back as the new fields under its old identifier. |
| Store.NewRowReadsBack | src/database.py:93-103 | The appended row reads back as the written transaction, its amount normalised unchanged. |
| Store.AppendAddsRecord | src/database.py:103-126 | Appending a row to a sheet that has its header adds exactly one record at the end. |
| Store.UpdateKeepsFind | src/database.py:154-167 | An update whose hit is in column 1 leaves `find`'s answer unchanged. |
| Store.UpdateChangesOneRecord | src/database.py:154-167 | Update changes the hit row's record only, and the number of records is kept. |
| Store.UpdateThenGet | src/database.py:133-167 | After an update hitting column 1, that record reads as the new fields under the same id, every other record is unchanged, and get finds the new record. |
| Dashboard.Filter | app.py:48-51 | A boolean mask keeps exactly the entries it holds for, and never more entries than the input has. |
| Dashboard.Flow | app.py:48-51 | The flow window keeps exactly the entries of the selected year and month. |
| Dashboard.Accumulated | app.py:67-70 | The accumulated window keeps exactly the entries of an earlier year, or of the selected year up to the selected month. |
| Dashboard.KindTotal | app.py:62-63 | The type mask followed by `.sum()`: a type no entry carries totals 0. Its one-pass reference is `Dashboard.KindTotalIsTally`. |
| Dashboard.MonthIncome | app.py:62 | The month's income is the sum of the amounts of the month's "Receita" entries, as one pass over all transactions computes it. |
| Dashboard.MonthExpense | app.py:63 | The month's expense is the sum of the amounts of the month's "Despesa" entries, as one pass over all transactions computes it. |
| Dashboard.Balance | app.py:72-74 | The balance is the accumulated "Receita" tally minus the accumulated "Despesa" tally. |
| Dashboard.KindTotalIsTally | app.py:62-73 | Summing the type-k part of a window equals one pass that adds each amount the window keeps whose type is k. |
| Dashboard.ExpenseSlices | app.py:87 | The pie chart's records are exactly the entries of the selected month whose type is "Despesa". |
| Dashboard.FilterAppend | app.py:48-51 | Masks keep input order: filtering a concatenation concatenates the filtered parts. |
| Dashboard.FilterNarrow | app.py:48-70 | Filtering by a weaker mask and then a stronger one is filtering by the stronger one. |
| Dashboard.FlowWithinAccumulated | app.py:48-70 | The flow window is exactly the accumulated window restricted to the month, so every flow entry is accumulated. |
| Dashboard.AccumulatedIsFlowIffEarliest | app.py:48-70 | The two windows coincide exactly when no entry is dated before the month. |
| Dashboard.WindowStep | app.py:67-73 | The accumulated total of a type at month m is the total at the month before plus month m's flow total. |
| Dashboard.BalanceStep | app.py:62-74 | Balance at month m = balance at the month before + the month's income − the month's expense. |
| Dashboard.OtherKindIgnored | app.py:62-74 | A transaction of any other type counts neither as income nor as expense, in the month or in the balance. |
| Dashboard.KindsSplitSum | app.py:62-63 | When every type is "Receita" or "Despesa", income plus expense is the whole sum. |
| Dashboard.ExpenseSlicesAreMonthExpenses | app.py:87 | The pie chart's records are exactly the month's "Despesa" records, and they add up to the month's expense. |
| Dashboard.KeyLessOrder | app.py:101 | The group-by's (date, type) order is a strict total order. |
| Dashboard.AddToBarsSorted | app.py:101 | Grouping one more entry keeps the rows strictly ordered by key. |
| Dashboard.TimelineTotals | app.py:101 | Every (date, type) total is the sum of the amounts with that date and type. |
| Dashboard.Timeline | app.py:101 | The timeline has one row per distinct (date, type) of the entries, strictly in key order, and its totals add up to the sum of all amounts. |
| Dashboard.TimelineBar | app.py:101 | Each timeline row carries the sum of its own (date, type). |
| Dashboard.Dashboard | app.py:20-58 | Figures are computed exactly when the selected month has an entry. Otherwise the page stops early. |
| Dashboard.DashboardTotals | app.py:56-101 | When the month has data and every type is income or expense, the timeline is non-empty and its totals add up to income plus expense. |
| Dashboard.SampleJanuaryWindows | app.py:48-51 | Worked example, January: the flow and the accumulated window both hold exactly the two January entries. |
| Dashboard.SampleFebruaryWindows | app.py:67-70 | Worked example, February: the flow window holds only the February entry, while the accumulated window holds all three. |
| Dashboard.SampleJanuary | app.py:62-74 | Worked example: income 1000 and expense 200 in January give a balance of 800. |
| Dashboard.SampleFebruary | app.py:62-74 | Worked example: February's expense of 50 leaves the accumulated balance at 750 while the month shows no income. |

## Left out

- Connection code is not part of this model: the spreadsheet client, the service-account credentials and the stored secrets (src/database.py:10-28). Its error paths are left out too: a failed connection shows a message and stops the page (src/database.py:29-31), a failed `init_db` prints the error and returns normally (src/database.py:43-44), and a failed read shows a message and returns an empty table (src/database.py:129-131).
- The debug `print` calls are left out.
- Store.AddTransaction: the uuid4 identifier is a parameter. It is required to be non-empty and to be the text of no cell. Randomness is not modelled.
- Store.ReadRecords: the read is keyed by column position, not by the header's names, and every record has the seven fixed columns. A sheet whose header is edited or reordered is not modelled.
- Store.GetTransactions: the distinction between the unformatted and the formatted render of the two reads is not modelled. Cells are one sum type (number, boolean, text, blank), and the automatic conversion of numeric-looking text by the reader is not modelled.
- Store.GetTransactions: the empty-table result with the seven column names is modelled as an empty sequence of records.
- Store.GetTransaction: returns a record, not a pandas row. The id column is compared as text, so a numeric id cell never matches.
- Sheet.Worksheet.UpdateCell: gspread's `update_cell` writes with the USER_ENTERED option, while `append_row` writes RAW. After an update the date text becomes a date serial number on the unformatted read, and numeric-looking text becomes a number. The model stores every written value verbatim, so Store.UpdateThenGet and Store.RewriteReadsBack hold for the model but not for every update on a real sheet.
- Sheet.FindCell: gspread's `find` compares the formatted text of every cell, and blank or empty cells count as "". The model matches text cells only. A cell written as empty text (an empty description) is `Text("")` in the model and is hit by `delete_transaction("")`, but a `Blank` cell is never hit, while on a real sheet the first blank or empty cell is. A RAW write of "" leaves the real cell empty, but the model keeps it as `Text("")`. A number cell whose formatted text equals the identifier is never hit in the model.
- Amount.PyFloat: Python's `float` is modelled on a plain grammar: optional sign, digits, optional '.' and digits. Exponents, "inf"/"nan", underscores and non-ASCII digits are not modelled. Values are exact reals, so binary floating-point rounding is not modelled.
- Dashboard: dates are taken already parsed. The text-to-date conversion of the date column, the year list, the today-based default month and the widgets are left out.
- Dashboard: amounts are summed as exact reals. Floating-point rounding in the sums and the two-decimal display format are not modelled.
- Dashboard: the charts are modelled by their input data only. That is the expense records for the pie chart and the grouped (date, type) totals for the bar chart. The per-category aggregation inside the charting library is not modelled.
- The other pages (new transaction, history with its filters, edit) are not part of this model. They only call the store operations modelled here.
