# Extrajudicial notices — a verified model

This project models the client-side logic of a web application for
Brazilian extrajudicial debt notices. A creditor fills in a form. The form
inserts a notice into a hosted table, with a fresh token and status
`pending`. The debtor opens the notice through a QR code and must accept it
before the document is shown. The acceptance stores a SHA-256 hash and the
debtor's IP address. Back-office screens search notices, show dashboard
statistics, and export PDF and CSV reports.

The Dafny modules follow the source files:

| module | file | models |
|---|---|---|
| `Notices` | notices.dfy | the notice row, the status tests, `filter`/`length`/`reduce` over rows |
| `Text` | text.dfy | the JavaScript string operations used (`replace(/\D/g,'')`, `trim`, `join`, `String(n)`, and the ASCII part of `toUpperCase`/`toLowerCase`) |
| `NotificationUtils` | notification_utils.dfy | `generateToken`, `formatDocument`, `getDefaultTerms` |
| `CepService` | cep_service.dfy | `fetchAddressByCep` |
| `NoticeStore` | store.dfy | the hosted table: `.eq(...).single()`, `.maybeSingle()`, the insert and the acceptance update |
| `Dashboard` | dashboard.dfy | `loadDashboardData`, `pieData`, `acceptanceRate` |
| `CsvFormat`, `ReportExport` | csv_format.dfy, report_export.dfy | `fetchFilteredData`, `exportToPDF`, `exportToExcel` |
| `NotificationSearch` | notification_search.dfy | `handleSearch`, `handleClear` |
| `AcceptancePayload` | acceptance_payload.dfy | `JSON.stringify` of the hashed acceptance data |
| `VerifyNotification` | verify_notification.dfy | the public verification page |
| `NotificationPreview` | notification_preview.dfy | the in-app preview |
| `NotificationForm` | notification_form.dfy | the creation form |
| `DisclaimerDialog` | disclaimer_dialog.dfy | the creator-hash dialog |

Components that keep React state are classes. Their fields are the state
variables, and their methods are the handlers. A handler's `ensures` gives
the whole new state in terms of the old one. Pure computations are
functions, and lemmas state their properties.

Nothing external is called. Instead:

- Store queries, the IP service, ViaCEP, the clock and `Math.random()` are
  parameters: a reply (`Option`, `None` for an error), a failure flag, or
  a clock reading.
- SHA-256 is a function-typed parameter.

Money is integer cents. A row's `created_at` is carried both as its text
and as its already-decomposed (year, month).

### Where the code and its documented intent differ (the model follows the code)

- **Dashboard groups.** The documented intent is that the dashboard's
  three groups (accepted, pending, ignored) form a disjoint, exhaustive
  partition. The code's filters do not.
  - A row whose `accepted` is null and whose status is not `ignored` is in
    no group.
  - An accepted row with status `ignored` is in two groups.
  - `Dashboard.ComputeStats` proves the exact identity instead.
  - `NullAcceptedIsUncounted` and `AcceptedIgnoredIsCountedTwice` exhibit
    both cases.
- **Truthiness tests.** The monthly series and the PDF summary test
  acceptance by truthiness, so a null `accepted` counts as pending there
  but not in the stats (`SeriesAndStatsDisagreeOnNull`).
- **Repeated acceptance.** The acceptance update has no "only if not yet
  accepted" guard. Accepting again overwrites the four acceptance columns
  (`NoticeStore.Accept`).
- **Insert row.** The form's insert sets neither `accepted` nor the
  creator columns.
  - `accepted` takes the store's column default, which is a parameter
    here.
  - No component passes the disclaimer dialog's creator data to the
    insert.
- **Search precedence.** The search tests the typed text before trimming
  it. A token field holding only spaces therefore searches for the empty
  token (`BlankTokenShadowsHash`). The key expression would let such a
  token win over a typed hash too, but that state cannot be reached: each
  input is disabled while the other holds text (`TypeToken`, `TypeHash`).
- **Preview callback.** The preview calls its parent's `onAccept` after
  every successful update, even when the reload that follows fails.
- **Two clock readings.** The hash covers one clock reading, and
  `accepted_at` stores a second one. The model keeps them as two inputs.

## Model

| member | source | states |
|---|---|---|
| NotificationUtils.RandomPart | src/lib/notificationUtils.ts:5 | for every draw u in [0,1) the random part lies in [100000, 999999] |
| NotificationUtils.RandomPartOnto | src/lib/notificationUtils.ts:5 | every six-digit number is the random part of some draw in [0,1) |
| NotificationUtils.GenerateToken | src/lib/notificationUtils.ts:3-7 | the token starts with `MR3X-NEJ-` and ends with '-' and six digits; its length is the prefix, the year text and 7 |
| NotificationUtils.TokenRoundTrip | src/lib/notificationUtils.ts:3-7 | splitting a token at its last '-' gives back the year and the random part |
| NotificationUtils.GeneratedTokenShape | src/lib/notificationUtils.ts:3-7 | for a four-digit year the token matches `MR3X-NEJ-\d{4}-\d{6}` and upper-casing leaves it unchanged |
| NotificationUtils.FormatDocument | src/lib/notificationUtils.ts:20-32 | 11 digits give the `ddd.ddd.ddd-dd` mask and 14 give `dd.ddd.ddd/dddd-dd`, with the same digits in the same order; any other digit count gives back the input itself |
| NotificationUtils.FormatDocumentKeepsDigits | src/lib/notificationUtils.ts:20-31 | the digits of the output are the digits of the input |
| NotificationUtils.FormatDocumentIdempotent | src/lib/notificationUtils.ts:20-32 | formatting an already formatted document changes nothing |
| NotificationUtils.DefaultTerms | src/lib/notificationUtils.ts:55-75 | the default terms open with the notice heading and are not empty |
| Text.StripNonDigits | src/lib/notificationUtils.ts:21 | the result holds only digits and is no longer than the input |
| Text.StripNonDigitsIdempotent | src/lib/cepService.ts:13 | cleaning a cleaned text changes nothing |
| CepService.FetchAddressByCep | src/lib/cepService.ts:11-36 | without exactly 8 digits there is no request and the result is null; otherwise the URL carries the 8 digits, and an address is returned exactly when the reply is ok, parses, and lacks `erro` |
| CepService.CepLookupUsesOnlyDigits | src/lib/cepService.ts:13-19 | inputs with the same digits are looked up alike, and every requested URL carries exactly 8 digits |
| CepService.CepPunctuationIgnored | src/lib/cepService.ts:13-19 | "12345-678" and "12345678" give the same lookup and URL |
| Dashboard.GroupCountIdentity | src/components/NotificationDashboard.tsx:58-60 | accepted + pending + ignored + (rows in no group) = total + (rows in two groups) |
| Dashboard.ComputeStats | src/components/NotificationDashboard.tsx:57-74 | each count is the length of its own filter (accepted, strictly pending, ignored) and each value the sum over that filter, the total value the sum over all rows; total is the row count; the groups add up to the total exactly as the identity says, and partition it when no row is null-accepted or accepted-and-ignored; with no negative amount the accepted and pending sums stay within the total |
| Dashboard.ValueBound | src/components/NotificationDashboard.tsx:62-64 | the accepted and pending sums together never exceed the total sum when no amount is negative |
| Notices.DisjointSumsBounded | src/components/NotificationDashboard.tsx:62-64 | for two tests no row passes both, the two filtered sums stay within the whole sum |
| Dashboard.PendingIsDisjoint | src/components/NotificationDashboard.tsx:58-60 | a pending row is neither in the accepted group nor in the ignored group |
| Dashboard.NullAcceptedIsUncounted | src/components/NotificationDashboard.tsx:58-60 | one pending row with null `accepted` gives total 1 and groups 0 + 0 + 0 |
| Dashboard.AcceptedIgnoredIsCountedTwice | src/components/NotificationDashboard.tsx:58-60 | one accepted row with status `ignored` gives total 1 and group counts summing to 2 |
| Dashboard.AcceptanceRate | src/components/NotificationDashboard.tsx:114 | 0 for no rows, otherwise rate × total = accepted × 100, and within [0, 100] when accepted ≤ total |
| Dashboard.PieData | src/components/NotificationDashboard.tsx:108-112 | every slice is non-empty; each category appears exactly when its count is positive; the slices keep the order accepted, pending, ignored |
| Dashboard.MonthsBefore | src/components/NotificationDashboard.tsx:81 | the month i months back is a valid month, the year rolling back as needed |
| Dashboard.WindowIsConsecutive | src/components/NotificationDashboard.tsx:80-85 | the window ends at the current month, each month is followed by the next calendar month, and no month repeats |
| Dashboard.Tally | src/components/NotificationDashboard.tsx:87-98 | a bucket belongs to its month and its accepted + pending never exceeds its total |
| Dashboard.TallyIgnoresOtherMonths | src/components/NotificationDashboard.tsx:88-90 | a row created outside the bucket's month leaves the bucket unchanged |
| Dashboard.TallyCounts | src/components/NotificationDashboard.tsx:90-97 | a bucket counts the month's rows, the accepted ones, and the not-accepted, not-ignored ones |
| Dashboard.SeriesAndStatsDisagreeOnNull | src/components/NotificationDashboard.tsx:92-96 | a null-accepted pending row is pending in the series but in no stats group |
| Dashboard.MonthlySeries | src/components/NotificationDashboard.tsx:77-100 | six buckets, oldest first, bucket k being the tally of the month 5 − k months back |
| Dashboard.DashboardView.constructor | src/components/NotificationDashboard.tsx:29-39 | loading, zero stats, no series |
| Dashboard.DashboardView.LoadDashboardData | src/components/NotificationDashboard.tsx:45-106 | on success the stats and the six-bucket series are those of the rows; on error both stay; loading ends on every path |
| ReportExport.FilterByStatus | src/components/ReportExport.tsx:39-46 | an order-preserving sublist that keeps every copy of each matching row and nothing else; `all` returns the list unchanged |
| ReportExport.FetchFilteredData | src/components/ReportExport.tsx:34-48 | an error gives no data; otherwise exactly the fetched rows with the chosen status, in order (a sublist of the reply) |
| ReportExport.StatusLabel | src/components/ReportExport.tsx:124-125 | 'Aceita' exactly when accepted, 'Ignorada' exactly when not accepted and ignored, 'Pendente' exactly otherwise |
| ReportExport.Summarize | src/components/ReportExport.tsx:80-82 | the accepted count counts the truthy `accepted` rows, the pending count the falsy ones, the total value is the sum over all rows; accepted + pending + (ignored, not accepted) = row count, so accepted + pending ≤ row count; the total is non-negative when no amount is negative |
| ReportExport.SummaryPartition | src/components/ReportExport.tsx:81-82 | the truthiness tests split every row into exactly one of accepted, pending, ignored |
| ReportExport.SummaryUnderFilter | src/components/ReportExport.tsx:40-43 | an accepted-only export reports all rows accepted and none pending, and a pending-only export the reverse |
| ReportExport.Clip | src/components/ReportExport.tsx:128-130 | the result is a prefix of the text, at most k long, the whole text when it fits |
| ReportExport.RemoveFirst | src/components/ReportExport.tsx:131 | a text without the pattern is unchanged; otherwise the pattern is cut out at its first occurrence, wherever that is, and the rest is kept in order |
| ReportExport.RemoveCurrencySign | src/components/ReportExport.tsx:131 | a formatted amount that starts with `R$` loses exactly that sign |
| ReportExport.RemoveCurrencySignAfterMinus | src/components/ReportExport.tsx:131 | a negative amount written `-R$…` loses the sign and keeps its minus |
| ReportExport.PdfRowCells | src/components/ReportExport.tsx:124-135 | seven cells, one per header and width; the token clipped to 20 and the names to 25 characters (the whole text when it fits); the formatted amount without its first `R$`; the status label; the formatted creation date; the formatted acceptance date when present and non-empty, '-' otherwise |
| ReportExport.ColumnStarts | src/components/ReportExport.tsx:99-103 | column i starts at margin + 2 + the widths of the columns before it |
| ReportExport.ColumnsFitA4Landscape | src/components/ReportExport.tsx:91 | the widths sum to 265, so the last column ends at the right margin of a 297 mm page |
| ReportExport.Place | src/components/ReportExport.tsx:111-120 | a row stays on its page or opens the next page at the top margin; exactly the even rows are shaded |
| ReportExport.LayoutRows | src/components/ReportExport.tsx:110-143 | one placement per row; the first on page 1 at the table start, each next one 7 below the previous or at the top of the next page; every row lies above the bottom reserve or at the top margin; exactly the even rows are shaded; the page count is the last row's page |
| ReportExport.CentsTextRoundTrip | src/components/ReportExport.tsx:189 | the amount cell reads back as the amount |
| ReportExport.CsvRowCells | src/components/ReportExport.tsx:183-198 | fourteen cells, each the field its header names, in header order: token, creditor name and document, debtor name and document, the amount text, due date, status label, creation time, the three acceptance fields ('' when null) and the property address and description |
| ReportExport.CsvExportRoundTrip | src/components/ReportExport.tsx:200-207 | reading the exported text gives back the 14 headers and every row's 14 cells, in order, whatever they hold |
| CsvFormat.UnquoteRoundTrip | src/components/ReportExport.tsx:202 | dropping a written cell's outer quotes and un-doubling its quotes gives back the cell text |
| CsvFormat.CellRoundTrip | src/components/ReportExport.tsx:202 | the cell reader reads a written cell back and stops right after it |
| CsvFormat.RecordRoundTrip | src/components/ReportExport.tsx:202 | a `;`-joined line of written cells reads back as those cells |
| CsvFormat.RecordsRoundTrip | src/components/ReportExport.tsx:200-203 | LF-joined lines read back as the rows |
| CsvFormat.SplitJoin | src/components/ReportExport.tsx:201 | the header line splits back into the header names |
| CsvFormat.DocumentRoundTrip | src/components/ReportExport.tsx:200-207 | BOM, header line and data lines read back as the header and rows |
| ReportExport.ReportPanel.constructor | src/components/ReportExport.tsx:16-19 | no export running, empty dates, filter `all` |
| ReportExport.ReportPanel.ExportToPdf | src/components/ReportExport.tsx:51-158 | on success the summary, the cells and the row placements of the filtered rows, laid out as the row loop lays them, and the page count of the last row; nothing on error; exporting ends on every path |
| ReportExport.ReportPanel.ExportToExcel | src/components/ReportExport.tsx:160-207 | on success the CSV text of the filtered rows; nothing on error; exporting ends on every path |
| NotificationSearch.NormalizeToken | src/components/NotificationSearch.tsx:37 | the key has no lower-case letter and is no longer than the input |
| NotificationSearch.NormalizeHash | src/components/NotificationSearch.tsx:39 | the key has no upper-case letter and is no longer than the input |
| NotificationSearch.NormalizeIdempotent | src/components/NotificationSearch.tsx:37-39 | normalising a key twice equals normalising it once |
| NotificationSearch.ChooseKey | src/components/NotificationSearch.tsx:27-40 | no key exactly when both fields are empty; a non-empty token field gives the token key, else the hash key |
| NotificationSearch.TokenTakesPrecedence | src/components/NotificationSearch.tsx:36-40 | with a token typed, the hash field makes no difference |
| NotificationSearch.BlankTokenShadowsHash | src/components/NotificationSearch.tsx:36-37 | the key expression lets a token field holding one space win over any hash and search for the empty token (the inputs' gating keeps a typed hash out of that state) |
| NotificationSearch.LowerCaseTokenIsFound | src/components/NotificationSearch.tsx:37 | a stored token typed in lower case with spaces around it gives the stored token as key |
| NotificationSearch.SearchPanel.TypeToken | src/components/NotificationSearch.tsx:120-126 | typing in the token field, allowed only while no search runs and the hash field is empty, sets that field alone and leaves at most one field typed |
| NotificationSearch.SearchPanel.TypeHash | src/components/NotificationSearch.tsx:135-141 | typing in the hash field, allowed only while no search runs and the token field is empty, sets that field alone and leaves at most one field typed |
| NotificationSearch.SearchPanel.HandleSearch | src/components/NotificationSearch.tsx:26-62 | with both fields empty nothing changes; otherwise one row is shown, no row or several clear the result, other errors keep it, and searching ends |
| NotificationSearch.SearchPanel.HandleClear | src/components/NotificationSearch.tsx:64-68 | both fields empty and no result |
| NoticeStore.Single | src/components/NotificationSearch.tsx:42-52 | a row exactly when one row matches and the transport works; PGRST116 exactly when zero or several match |
| NoticeStore.MaybeSingle | src/pages/VerifyNotification.tsx:41-52 | a row when exactly one matches, null data when none does, an error when several do or the transport fails |
| NoticeStore.Accept | src/pages/VerifyNotification.tsx:84-92 | the row becomes accepted with the given time, hash and address; every other column is unchanged |
| NoticeStore.ApplyAcceptance | src/pages/VerifyNotification.tsx:84-92 | rows with the id are accepted, every other row is unchanged |
| NoticeStore.AcceptanceKeepsTokenLookup | src/pages/VerifyNotification.tsx:84-101 | the update keeps tokens: a lookup finds as many rows as before, and the one updated row now accepted |
| NoticeStore.NoticeTable.UpdateAcceptance | src/pages/VerifyNotification.tsx:84-94 | on success the rows are updated as `ApplyAcceptance` says; on error nothing changes |
| NoticeStore.NoticeTable.Insert | src/components/NotificationForm.tsx:61-90 | on success the row is appended; on error nothing changes |
| AcceptancePayload.Payload | src/pages/VerifyNotification.tsx:72-78 | the serialised acceptance data starts with `{"token":` and ends with `}` |
| AcceptancePayload.PayloadRoundTrip | src/pages/VerifyNotification.tsx:72-78 | the hashed text reads back as the token, time and id it was made from |
| AcceptancePayload.PayloadInjective | src/pages/VerifyNotification.tsx:72-78 | different acceptances are serialised to different texts |
| AcceptancePayload.ReadJsonCharsRoundTrip | src/pages/VerifyNotification.tsx:78 | a JSON-escaped string reads back as itself |
| VerifyNotification.AfterLoad | src/pages/VerifyNotification.tsx:39-67 | a found row is shown and opens the dialog when not accepted; no row or an error sets not-found; loading ends |
| VerifyNotification.FirstLoadOpensDialog | src/pages/VerifyNotification.tsx:56-59 | from the initial state, the dialog opens exactly when the loaded notice is not accepted |
| VerifyNotification.LoadKeepsRenderable | src/pages/VerifyNotification.tsx:39-67 | after any load the page is not-found or has a notice |
| VerifyNotification.ViewOf | src/pages/VerifyNotification.tsx:136-341 | loading, then not-found, then the notice whenever one is loaded; PDF button, acceptance card and document exactly when accepted, the blocked card exactly when not; a render failure exactly when no notice, no spinner and no not-found card |
| VerifyNotification.VerifyPage.constructor | src/pages/VerifyNotification.tsx:26-31 | the initial state |
| VerifyNotification.VerifyPage.LoadNotification | src/pages/VerifyNotification.tsx:39-67 | the state after the lookup of the upper-cased route token |
| VerifyNotification.VerifyPage.Mount | src/pages/VerifyNotification.tsx:33-37 | with no route token nothing changes; otherwise the page loads |
| VerifyNotification.VerifyPage.HandleAccept | src/pages/VerifyNotification.tsx:69-108 | succeeds exactly with a notice, an address and a successful update; then only the acceptance columns of that id change, the dialog closes and the page reloads; otherwise no row and no state but the flag changes |
| VerifyNotification.AcceptThenReloadShowsAccepted | src/pages/VerifyNotification.tsx:84-101 | after accepting and reloading, the page shows the notice accepted with the hash, dialog closed |
| NotificationPreview.ViewOf | src/components/NotificationPreview.tsx:113-153 | loading, then not-found, then the notice whenever one is loaded; the PDF button always, the accept button exactly when not accepted (disabled while accepting), the card exactly when accepted |
| NotificationPreview.PreviewPanel.constructor | src/components/NotificationPreview.tsx:19-22 | no notice, loading, not accepting |
| NotificationPreview.PreviewPanel.LoadNotification | src/components/NotificationPreview.tsx:28-44 | the one row with the id is shown; on error the notice stays; loading ends |
| NotificationPreview.PreviewPanel.HandleAccept | src/components/NotificationPreview.tsx:46-85 | the update is keyed by the panel's id; `onAccept` runs exactly once per successful update; on failure nothing changes; accepting ends |
| NotificationPreview.AcceptedPanelHidesButton | src/components/NotificationPreview.tsx:135-153 | after a successful update and reload the accept button is gone and the card is shown |
| NotificationPreview.AcceptanceKeepsIdLookup | src/components/NotificationPreview.tsx:61-77 | the update keeps ids: the lookup by id finds as many rows, all accepted |
| NotificationForm.Errors | src/components/NotificationForm.tsx:123-242 | an error for a field exactly when it is required and blank |
| NotificationForm.ValidIff | src/components/NotificationForm.tsx:123-242 | the form submits exactly when no required field is blank, and then both numbers are present |
| NotificationForm.OptionalFieldsNeverBlock | src/components/NotificationForm.tsx:129-151 | the e-mail and phone fields never change the reported errors |
| NotificationForm.DefaultFormErrors | src/components/NotificationForm.tsx:49-54 | a fresh form has deadline 10 and the given default terms; with a non-empty terms text, as `DefaultTerms` is, it reports exactly the other required fields |
| NotificationForm.InsertedNotice | src/components/NotificationForm.tsx:59-88 | the row has the token, status 'pending', no acceptance, creator or PDF data, and reads back as the form |
| NotificationForm.InsertInjective | src/components/NotificationForm.tsx:64-86 | two forms inserting the same row are the same form, so creditor and debtor fields never mix |
| NotificationForm.NewNoticeIsPending | src/components/NotificationForm.tsx:87 | unless the store defaults `accepted` to true, a new notice is neither accepted nor ignored |
| NotificationForm.FormPanel.constructor | src/components/NotificationForm.tsx:48 | not submitting, no errors, no callback yet |
| NotificationForm.FormPanel.Submit | src/components/NotificationForm.tsx:56-107 | an invalid form inserts nothing; a valid one inserts the row with a generated token; `onSuccess` gets the new id exactly when the insert succeeds; submitting ends |
| DisclaimerDialog.HashInput | src/components/DisclaimerDialog.tsx:32 | the hash input is as long as the address, a dash and the time |
| DisclaimerDialog.HashInputSplits | src/components/DisclaimerDialog.tsx:32 | for an address without a dash, the first dash separates the address from the time |
| DisclaimerDialog.PadStart2 | src/components/DisclaimerDialog.tsx:37 | a short text gets leading zeros up to length 2; a longer one is unchanged |
| DisclaimerDialog.ByteHex | src/components/DisclaimerDialog.tsx:37 | every byte gives its high and then its low hex digit, zero-padded |
| DisclaimerDialog.HexEncode | src/components/DisclaimerDialog.tsx:36-37 | two lower-case hex digits per byte |
| DisclaimerDialog.HexRoundTrip | src/components/DisclaimerDialog.tsx:37 | decoding the hex text pair by pair gives back the bytes |
| DisclaimerDialog.HexEncodeInjective | src/components/DisclaimerDialog.tsx:37 | different digests give different hash texts |
| DisclaimerDialog.Sha256HexLength | src/components/DisclaimerDialog.tsx:35-37 | a 32-byte digest gives a 64-character hash |
| DisclaimerDialog.ButtonsOf | src/components/DisclaimerDialog.tsx:110-113 | both buttons are disabled exactly while loading |
| DisclaimerDialog.Dialog.constructor | src/components/DisclaimerDialog.tsx:21 | not loading, nothing confirmed |
| DisclaimerDialog.Dialog.HandleConfirm | src/components/DisclaimerDialog.tsx:23-45 | `onConfirm` gets the address and the hex digest of `ip-timestamp` exactly when both the IP fetch and the digest succeed; loading ends on every path |

## Left out

- `generateHash` and `crypto.subtle.digest` (SHA-256) are function-typed parameters. The UTF-8 encoding done by `TextEncoder` is folded into that parameter.
- All network I/O (store queries and updates, `api.ipify.org`, ViaCEP) is a reply parameter or a failure flag. A reply from the IP service that lacks an `ip` field is not modelled. The page would then store `undefined`.
- `formatCurrency`, `formatDate` and `formatDateTime` are locale formatters. They are parameters of `ReportExport.PdfRowCells` and `ReportExport.ReportPanel.ExportToPdf`.
- Amounts are integer cents, not floating-point numbers. The `Number(...)` sums are therefore exact.
- `ReportExport.CentsText`: it writes `String(debt_amount)` as a decimal, which is right only for amounts below 10^21. At that size JavaScript switches to exponent notation.
- `Dashboard.AcceptanceRate`: the rate is an exact real. The `toFixed(1)` rounding is left out.
- Dates are not parsed.
  - `created_at` is taken as an already-decomposed (year, month), in place of the time-zone-dependent `new Date(created_at)`.
  - `Dashboard.MonthsBefore` ignores the `Date` constructor's special handling of years 0–99.
  - A month bar is labelled with its (year, month), not the locale's short month name.
- The export's date-range bounds (`gte`/`lte` on `created_at`) are applied by the store. The model receives rows that are already bounded.
- PDF drawing is left out: fonts, colours, the title, filter and footer texts, the file names, and page rendering. The page height is a parameter.
- The preview's and the verification page's PDF generation (`html2canvas`, jsPDF) and the QR code are left out.
- `loadAllNotifications` and the list's text filter in the search panel are outside the modelled core.
- Toast messages, `console.error` and React re-render scheduling are left out. Concurrent or interleaved handlers are not modelled: each handler runs to completion.
- `NotificationForm.Errors`, `NotificationForm.ValidIff`, `NotificationForm.FormPanel.Submit`: the browser's own checks are not modelled. These are the `type="email"` format check, the number input's `step`, and the `maxLength={2}` on the state inputs. A typed but malformed e-mail address blocks the browser's submission, so a form these members call valid can still be stopped before `handleSubmit` runs.
- `NotificationSearch.NormalizeToken`: upper-casing is ASCII-only, while `toUpperCase` maps all of Unicode. Non-ASCII letters are kept as they are ("é" stays "é", not "É"). Because "ß" becomes "SS" in JavaScript, the contract's `|r| <= |s|` holds of this model but not of the program for such input.
- `NotificationSearch.NormalizeHash`: lower-casing is ASCII-only, while `toLowerCase` maps all of Unicode. For instance the Kelvin sign U+212A stays as it is, where JavaScript gives "k". For the hexadecimal hashes the search is meant for, the two agree.
- `NotificationSearch.NormalizeIdempotent`: idempotence is proved for the ASCII case maps of this model, not for JavaScript's full Unicode case mapping.
- `VerifyNotification.VerifyPage.LoadNotification`: the route token is upper-cased with the ASCII-only map, so a token with non-ASCII letters is looked up under a different key than `toUpperCase` would give. Generated tokens are ASCII only.
- `ReportExport.Clip`: lengths are counted in characters (code points), while `substring(0, k)` counts UTF-16 code units. A name with characters outside the Basic Multilingual Plane (emoji, say) is cut later in this model than in the program, which can also split a surrogate pair.
- `NotificationForm.FormPanel.Submit`: the store's default for `accepted` and the generated id and timestamps are parameters (`StoreAssigned`). The table definition is not part of this model.
- `DisclaimerDialog.Dialog.HandleConfirm`: the clock reading is a parameter. Its ISO format is not checked.
