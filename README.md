# Autocab / CMAC price comparison — a Dafny model

The application is a one-page Flask form. The user uploads two spreadsheets:
file1 comes from Autocab and file2 from CMAC. Each sheet has a `Reference`
column and a `Price` column. The page then shows a report of every reference
with both prices, their difference, and whether they match. This project models
the two pieces of logic in `app.py` and proves what they promise:

- **Upload validation** (`Upload`, `App.Decide`). `allowed_file` accepts a name
  that has a `.` when the text after the last `.` lower-cases to `xlsx`.
  `index` handles a POST in this order:
  - a missing `file1`/`file2` field, or an empty file name, redirects;
  - a name that `allowed_file` rejects falls through to the form page;
  - only two accepted names reach the merge.
- **Merge and report** (`Report`, `App.Index`). The steps are:
  - a full outer join of the two sheets on `Reference`;
  - the `Match` flag: both prices present and equal;
  - the in-place sort on `Match` with `ascending=False`;
  - `Price_Difference`;
  - the `Description` text;
  - the five report columns.

  Pandas is replaced by explicit sequences of rows. Prices are whole cents
  (`int`). A missing price (pandas NaN) is `None`. The in-place sort works on an
  `array`. The other steps are functions over `seq`.

Module layout: `nullable.dfy` (the `Option` type), `upload.dfy`
(`allowed_file`), `report.dfy` (the pipeline) and `app.dfy` (the `index`
handler).

## Behaviour worth knowing

The model follows the code. Only the first item below is a place where the code
and its own comment disagree. The second is a place where the code does
something other than redirect. The rest are consequences of the code that a
reader may not expect.
- **Sort direction.** The comment on `app.py:51` says "mismatch first". But
  `sort_values(by='Match', ascending=False)` on a boolean column puts `True`
  first. So the report lists the **matches first**. `Report.ExampleMatchFirst`
  shows this on a worked example: the one matching reference comes before the
  two one-sided references.
- **Disallowed extension.** A rejected extension does not redirect.
  `index` falls through to `render_template('index.html')` on `app.py:73`.
  `App.Decide` and `App.WrongExtensionShowsForm` give this as a separate
  outcome, `ShowForm`.
- **Uploads saved under the same name.** Each upload is saved under
  `secure_filename` of its name, file1 first and then file2 (app.py:36-39). Both
  sheets are then read back from those paths (app.py:42-43). When the two names
  give the same saved name, file2 overwrites file1, so CMAC's sheet is compared
  with itself. `App.Decide` takes the saved-name function as a parameter and
  models this overwrite. `App.CollidingUploadsCompareCmacWithItself` shows a
  price difference reported as a match.
- **Two empty sheets.** When neither sheet has a data row, the merged frame is
  empty. pandas' `apply` on an empty Series then keeps the bool dtype, so
  `'Autocab' + …` on app.py:64 raises a `TypeError` and the request ends in a
  server error. `Report.MergeReport` returns `None` in that case, and
  `App.Index` answers `ServerError`.
- **Sort stability.** pandas' default sort is not stable. So nothing is
  promised about the order inside the match group or inside the mismatch group.

## Model

| member | source | states |
|---|---|---|
| `Upload.AllowedFileIff` | app.py:18-19 | `allowed_file` accepts a name exactly when its fifth character from the end is `.` and the last four lower-case to `xlsx`. That is: there is a dot, and what follows the last dot is `xlsx` in any case. |
| `Upload.AllowedFile` | app.py:18-19 | `allowed_file` itself: a dot, and the text after the last dot lower-cased is in `{'xlsx'}`. Its own contract says an accepted name has its last dot five characters from the end. `Upload.AllowedFileIff` characterises it in both directions. |
| `Upload.AcceptedEndsInXlsx` | app.py:18-19 | Every accepted name ends in `.` plus four characters that lower-case to `xlsx`. |
| `Upload.EndsInXlsxAccepted` | app.py:18-19 | Every name ending in `.` plus four characters that lower-case to `xlsx` is accepted: no later dot can follow. |
| `Upload.AcceptedExamples` | app.py:18-19 | `"A.XLSX"` and `".xlsx"` are accepted. |
| `Upload.RejectedExamples` | app.py:18-19 | `"xlsx"` (no dot), `"a.xlsx.csv"` (the last extension is `csv`) and `""` are rejected. |
| `Upload.LastIndexOf` | app.py:19 | The split point of `rsplit('.', 1)` holds a `.`, and no `.` follows it. |
| `Upload.Extension` | app.py:19 | The extension contains no `.` and is the suffix that follows some `.` of the name. |
| `Upload.ToLower` | app.py:19 | Lower-casing maps `A`..`Z` to `a`..`z` and leaves every other character alone. |
| `App.Decide` | app.py:23-43 | A POST redirects exactly when a field is missing or a file name is empty. It reaches the merge exactly when both fields are present and both names pass `allowed_file`. The CMAC sheet is then file2's. The Autocab sheet is file1's, unless both names are saved under the same name, in which case it is file2's too. Every other request shows the form. |
| `App.CollidingUploadsCompareCmacWithItself` | app.py:36-43 | Two uploads both named `p.xlsx`, with prices 100 and 200 for reference 1, are both read back as the second sheet. Reference 1 is then described as a match. |
| `App.WrongExtensionShowsForm` | app.py:31-34 | A `.csv` file beside an `.xlsx` file gets the form page, not the redirect. An empty file name gets the redirect. |
| `App.Index` | app.py:23-73 | The answer is a redirect or the form exactly as `Decide` routes the request. An accepted pair of uploads gets a server error exactly when both sheets read back are empty. Otherwise it gets the report of the sheets read back from the saved files: file1's path as Autocab and file2's as CMAC. |
| `Report.PriceOf` | app.py:46 | A reference that a sheet does not contain gets no price from it. |
| `Report.PriceOfRow` | app.py:46 | In a sheet with unique references, looking up a row's reference gives that row's price. |
| `Report.RightOnly` | app.py:46 | The CMAC-only rows of the outer join: one row for each reference of the right sheet that is absent from the left, with no left price and the right sheet's price. |
| `Report.Join` | app.py:46 | The full outer join on `Reference`. Its references are exactly the union of both sheets' references, with no duplicates. Each row carries the price each sheet gives for its reference, and `None` where the sheet gives none. |
| `Report.IsMatch` | app.py:49 | The `Match` column: true only when both prices are present, and then exactly when they are equal. `Report.MatchIffZeroDifference` ties it to the difference. |
| `Report.Difference` | app.py:55 | `Price_Difference`: present exactly when both prices are, and then the amount that, added to the CMAC price, gives the Autocab price. |
| `Report.MatchIffZeroDifference` | app.py:49-55 | `Match` holds exactly when the difference is present and zero. A missing price on either side means no match and no difference. The difference is present exactly when both prices are. |
| `Report.Describe` | app.py:63-65 | The description is `Autocab (Match), CMAC (Match)` for a match and `Autocab (Mismatch), CMAC (Mismatch)` otherwise. The two halves always agree. |
| `Report.DescriptionsDiffer` | app.py:63-65 | The two descriptions are different strings, so the description still tells matches apart after the projection drops `Match`. |
| `Report.ToReportRow` | app.py:55-68 | One report row: it keeps the reference and both prices. It is described as a match exactly when the row's `Match` flag holds. For a flag computed from the prices, the difference is zero exactly when the row matches. |
| `Report.Project` | app.py:55-68 | The derived columns and the five-column projection, applied to every row: one report row per frame row. `Report.JoinedRowsPerReference` shows that each is the row its reference determines. |
| `Report.SortByMatch` | app.py:51-52 | The in-place sort leaves every matching row before every non-matching row. The frame is a permutation of what it was. |
| `Report.SwapRows` | app.py:52 | Exchanging two rows of the frame changes nothing else and keeps the multiset of rows. |
| `Report.ProjectPermutation` | app.py:52-68 | Adding the derived columns to two permutations of the same frame rows gives two permutations of the same report rows. |
| `Report.JoinedRowsPerReference` | app.py:46-68 | Before the sort, the joined rows with their derived columns are already one row per reference of either sheet. Each is the row that its reference determines. |
| `Report.PermutationKeepsRows` | app.py:52 | Reordering the rows keeps them one per reference, each with its own prices, difference and description. |
| `Report.EmptyJoin` | app.py:46 | The outer join is empty exactly when both sheets are empty. |
| `Report.MergeReport` | app.py:46-68 | The pipeline fails exactly when both sheets are empty, at the Description step. Otherwise the report is a permutation of the joined rows with their derived columns: no row is added or dropped. It lists every reference of either sheet exactly once. Each row carries both sheets' prices, the difference and the description that its reference determines. Every match comes before every mismatch. |
| `Report.ReportRowMeaning` | app.py:46-65 | In any report, each row's reference is in one of the sheets and its prices are the sheets' prices. The row is described as a match exactly when both prices are present and equal. Its difference is `Price_Autocab - Price_CMAC` when both are present and missing otherwise. |
| `Report.ExampleMatchFirst` | app.py:46-68 | For Autocab {1: 1000, 2: 2000} and CMAC {1: 1000, 3: 3000}, the report has exactly three rows, for references {1, 2, 3}. Its first row is the match for 1, with difference 0. References 2 and 3 follow as mismatches without a difference. |

## Left out

- Flask routing, `render_template`, `redirect(request.url)` and `app.run` (app.py:21-22, 71, 73, 75-76): this is web plumbing. The model's `Response` only says which page is answered.
- Creating the upload directory, `os.path.join` and `file.save` (app.py:13-15, 36-39): these are filesystem side effects. For one request on its own, the model keeps what they do to the report: two uploads saved under the same name read back as the second upload's sheet.
- `App.Decide`: the model assumes that the files read back (app.py:42-43) are the ones this request saved (app.py:38-39). Concurrent requests are not modelled. Flask's development server handles requests in threads, so a second request that saves under the same name between this request's save and its read would make this request report the other request's sheet. `Decide`'s promise that the sheets are this request's `file1`/`file2` sheets does not cover that race.
- `secure_filename` (app.py:36-37): a werkzeug library call. It is an arbitrary function parameter (`savedName`) of `App.Decide` and `App.Index`, so every property holds for any sanitising function.
- `pd.read_excel` (app.py:42-43): spreadsheet parsing in a foreign library. Each upload carries its sheet already parsed into `(Reference, Price)` rows. A sheet without a `Reference` or `Price` column, or one that fails to parse, raises an unhandled exception in the source. The model does not represent that failure.
- Columns other than `Reference` and `Price` in the sheets: the projection on app.py:68 drops them, so rows hold only those two.
- Floating-point prices, NaN and rounding in the subtraction (app.py:49, 55): prices are exact integers (cents) and a missing price is `None`.
- `pd.to_numeric(errors='coerce')` and `astype('Int64')` on `Reference` (app.py:57-61): references are integers from the start, so both steps change nothing. A non-numeric reference, which pandas would turn into a missing key, is not modelled.
- Duplicate references within one sheet, and missing (NaN) reference keys: `UniqueRefs` excludes duplicates as a precondition. pandas would pair up every duplicate.
- Row order produced by the outer merge (pandas sorts the keys): `Join` lists the left sheet's rows, then the right-only rows. No property depends on that order.
- `Report.SortByMatch`: it is a two-way partition. It promises the grouping and the permutation, the only things pandas' unstable sort also guarantees. The order inside each group is not specified.
- `Upload.ToLower`: only `A`..`Z` are lower-cased, unlike Python's full Unicode `str.lower()`. No other character lower-cases to `x`, `l` or `s`, so the model accepts and rejects exactly the same names as the source.
- A file field that is present but has no file name at all (`filename` of `None`): a file name is always a string here.
