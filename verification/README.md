# Proposta Express: the proposal lifecycle

A Dafny model of the proposal lifecycle of the Proposta Express backend
(`server.js`). It covers four parts:

- **Validity.** The validity date of a proposal is today plus `prazo`
  calendar days, as `Date.prototype.setDate` rolls it over (section 21.4.4.20
  of ECMA-262). It is rendered as `toLocaleDateString("pt-BR")` writes it:
  `DD/MM/YYYY`.
- **Store.** The `propostas` table is modelled with its AUTOINCREMENT ids and
  its status strings "Pendente", "Enviado", "Falha", "Aceita" and "Recusada".
- **Dispatch pipeline** (`/send-email`):
  1. insert the proposal as "Pendente";
  2. compose the markup;
  3. render the PDF;
  4. send the e-mail;
  5. finalise the record as "Enviado" or "Falha".
- **Client routes.** The accept and reject routes overwrite the status. The
  history listing is ordered by `data_envio`, newest first.

The clock, the database engine's failures, the PDF renderer's outcome and the
mail service's outcome are all parameters. Each step is then a pure function of
its inputs.

Modules:

- `Optional` (`optional.dfy`): the `Option` type that parsers return.
- `JsNumber` (`js_number.dfy`): JavaScript Numbers, which are IEEE 754
  doubles (section 6.1.6.1 of ECMA-262). The server holds the inserted row's
  id as a Number, so the id is rounded to the nearest double. A Number inside
  a template literal is written by Number::toString (section 6.1.6.1.20 of
  ECMA-262) with the fewest significant digits that read back as it;
  `PrintedInteger` is the integer those digits spell. Up to 2^53 both are the
  id itself. Past 2^54 the written digits can differ from the Number's.
- `Decimal` (`decimal.dfy`): decimal digit strings. These cover the digits of
  the integer `PrintedInteger` chooses and a zero-padded day or month.
- `CivilDate` (`civil_date.dfy`): proleptic Gregorian dates, numbered by days
  since 1970-01-01. The start of each year is counted year by year, and a lemma
  shows the count agrees with the closed form of DayFromYear in section
  21.4.1.3 of ECMA-262. The module also holds `AddDays` and its step-by-step
  reference `NextDays`.
- `Validity` (`validity.dfy`): the pt-BR rendering and its read-back
  `ParseDate`. It also covers the "Invalid Date" produced when the date leaves
  the range of time values (TimeClip, section 21.4.1.31 of ECMA-262).
- `Proposals` (`proposals.dfy`): the store, INSERT, the status UPDATE, the
  client's decision and the history listing. The listing's reference is the
  rows in ascending id order.
- `Markup` (`markup.dfy`):
  - the dispatch markup, written around a `Template` of fixed text;
  - the server's own text, `DispatchTemplate`;
  - the accept and reject links and their parser `ParseDecisionLink`.
- `Dispatch` (`dispatch.dfy`): the `/send-email` pipeline. `ServeSendEmail` is
  the route as deployed, which applies `SendEmail` to `DispatchTemplate`.

## Model

| member | source | states |
|---|---|---|
| JsNumber.Spacing | server.js:67 | Consecutive doubles are one apart exactly below 2^53, and further apart from there on; `SpacingIsUlp` gives the exact gap in each binade. |
| JsNumber.ToNumber | server.js:67 | The Number an id becomes is a double: a multiple of the spacing around the id. It is within half a spacing of the id, and a tie goes to the even multiple. |
| JsNumber.RoundToMultiple | server.js:67 | Rounding to a multiple of `u` gives a multiple of `u` within `u / 2`, and a tie goes to the even multiple. |
| JsNumber.SpacingIsUlp | server.js:67 | Within the binade [2^(53+j), 2^(54+j)) consecutive doubles are exactly 2^(j+1) apart, as a 53-bit significand gives. |
| JsNumber.Binade | server.js:67 | Every integer from 2^53 on lies in one such binade. |
| JsNumber.RoundMultiple | server.js:67 | A multiple of `u` is its own nearest multiple. |
| JsNumber.NearMultipleBetween | server.js:67 | A multiple of `u` within `u / 2` of a point between two multiples of `u` lies between them too, so rounding never leaves the binade except onto the power of two that ends it. |
| JsNumber.ToNumberIdempotent | server.js:67 | A Number converts to itself: converting an id twice gives the same Number as converting it once. |
| JsNumber.PrintedReadsBack | server.js:67-71 | The integer written into the links for an id's Number converts back to that same Number. |
| JsNumber.SpacingBound | server.js:67 | From 2^53 on, the spacing is at most a 2^52nd part of the number. |
| JsNumber.ConvertsToExact | server.js:67 | Only the integer itself, or 2^53 + 1 for 2^53, becomes a Number up to 2^53. |
| JsNumber.PrintedExponent | server.js:70-71 | The number of trailing zeros Number::toString writes is the largest, up to 20, at which the nearest multiple of that power of ten still reads back as the Number. |
| JsNumber.PrintedInteger | server.js:70-71 | The integer written for a Number reads back as that Number, and it ends in that many zeros. |
| JsNumber.PrintedExact | server.js:70-71 | A Number up to 2^53 is written with its own digits. |
| JsNumber.TwiceExactLimitIsANumber | server.js:67 | 2^54 + 8 is exactly a double. |
| JsNumber.TwiceExactLimitReadsBackAtTen | server.js:70-71 | The multiple of ten nearest 2^54 + 8, 18014398509481990, reads back as 2^54 + 8. |
| JsNumber.PrintedPastTwiceExactLimit | server.js:67-71 | The id 2^54 + 8 is exactly a Number, yet it is written as 18014398509481990, which is 2^54 + 6. |
| JsNumber.ToNumberExact | server.js:67 | Ids up to 2^53 become Numbers unchanged. |
| JsNumber.ToNumberPastExactLimit | server.js:67 | The id 2^53 + 1 becomes the Number 2^53. |
| Decimal.Show | server.js:70-71 | The integer chosen for an id is written in decimal with at least one digit, only digits, and no leading zero. |
| Decimal.ParseShow | server.js:70-71 | Reading the decimal rendering of a number back gives the number. |
| Decimal.ShowInjective | server.js:70-71 | Different ids render as different digit strings. |
| Decimal.ShowFourDigits | server.js:54 | Years 1000 to 9999 are written with exactly four digits. |
| Decimal.Pad2 | server.js:54 | A day or a month is written as exactly two digits that read back as its value. |
| Decimal.DigitChar | server.js:54 | The digit character of a value below ten is a digit and reads back as that value. |
| CivilDate.DayNumber | server.js:52-53 | A valid date's day number falls inside its year: at or after January 1st and before the next year's. |
| CivilDate.EcmaYearStep | server.js:53 | Under the closed form of ECMA-262, consecutive years start 366 days apart when the first is a leap year (divisible by 4, and not by 100 unless by 400), otherwise 365. |
| CivilDate.DayFromYearIsEcma | server.js:53 | Counting whole years from 1970 gives the start of every year that the closed form of ECMA-262 gives. |
| CivilDate.MonthStep | server.js:53 | The first days of consecutive months are that month's length apart, with February at 29 days in a leap year. |
| CivilDate.LocateYear | server.js:53 | The year found for a day number is the one whose January 1st is at or before it and whose next January 1st is after it. |
| CivilDate.LocateMonth | server.js:53 | The month found for a day of the year is the one that contains it. |
| CivilDate.FromDayNumber | server.js:53 | Every day number names a valid calendar date whose day number is exactly it. |
| CivilDate.DayNumberInjective | server.js:53 | Two valid dates with the same day number are the same date. |
| CivilDate.FromDayNumberOfDayNumber | server.js:53 | A valid date is recovered from its day number. |
| CivilDate.AddDays | server.js:51-53 | Adding `n` days to a valid date gives a valid date exactly `n` day numbers later, for negative `n` too. |
| CivilDate.NextDay | server.js:53 | The next calendar day is always a valid date. |
| CivilDate.AddDaysZero | server.js:51-53 | A term of zero days leaves the date unchanged. |
| CivilDate.AddDaysAdd | server.js:51-53 | Adding `a` days and then `b` days is adding `a + b` days. |
| CivilDate.AddDaysOne | server.js:53 | Adding one day steps to the next day of the month, or to the first of the next month, or to January 1st of the next year. |
| CivilDate.AddDaysStep | server.js:53 | One more day of term is one more step to the next calendar day. |
| CivilDate.AddDaysIsNextDays | server.js:51-53 | For a non-negative term, adding `n` days is `n` successive next-day steps. |
| CivilDate.AddDaysWithinMonth | server.js:53 | A term that keeps the day inside its month (7 days from January 1st, say) only moves the day of the month. |
| CivilDate.AddDaysIntoLeapDay | server.js:53 | In a leap year, the day after February 28th is February 29th. |
| CivilDate.AddDaysOverCommonFebruary | server.js:53 | In a common year, including century years such as 1900, the day after February 28th is March 1st. |
| CivilDate.AddDaysOverYearEnd | server.js:53 | The day after December 31st is January 1st of the next year. |
| Validity.Format | server.js:54 | The rendering has slashes at positions 2 and 5, and is ten characters long for four-digit years. |
| Validity.ParseFormat | server.js:54 | Day, month and year are read back unchanged from the rendered validity. |
| Validity.FormatInjective | server.js:54 | Different dates render as different strings. |
| Validity.CommonEraYears | server.js:53-54 | Day numbers from 0001-01-01 on fall in years 1 and later. |
| Validity.ValidityText | server.js:51-54 | The validity reads back as a date exactly when today plus `prazo` days is within the range of time values. The date read back is valid and is `prazo` days after today. Outside the range the text is "Invalid Date". |
| Proposals.EmptyStoreWellFormed | database.js:5-15 | A freshly created table is well formed and empty. |
| Proposals.Insert | server.js:57-67 | An insert fails exactly when the engine fails or every id is used, and it reports which. On success the new id is `lastId + 1`, fresh and above every existing id. The keys gain exactly that id, the new row is the one written, and no other row changes. |
| Proposals.UpdateStatus | server.js:146 | Only the target row's status changes: the keys and every other column stay as they were. An id with no row leaves the store as it was. |
| Proposals.UpdateStatusIdempotent | server.js:164 | Writing the same status twice is the same as writing it once. |
| Proposals.UpdateStatusLastWins | server.js:164-172 | Of two status writes to one record, the later wins. |
| Proposals.Decide | server.js:162-176 | A decision is confirmed exactly when the engine runs the UPDATE. The target becomes "Aceita" or "Recusada" whatever its status was. An unknown id leaves the store unchanged and is still confirmed. Other records never change. |
| Proposals.DecideLatestStands | server.js:162-176 | A decided proposal can be decided again, and the later decision stands. |
| Proposals.RowsUpTo | server.js:180 | The reference listing holds the store's rows in strictly ascending id order, and every record appears in it. |
| Proposals.InsertNewestFirst | server.js:180 | Inserting a row into a newest-first listing keeps it newest first. The result is the listing plus that row, with ids still distinct. |
| Proposals.SortNewestFirst | server.js:180 | The sorted listing is newest first, is a permutation of its input, and keeps ids distinct. |
| Proposals.History | server.js:179-183 | Listing fails only when the engine does. The rows are ordered by non-increasing `data_envio`. Every record appears exactly once, with its stored columns. |
| Proposals.InsertLatestKeepsChronology | server.js:57-60 | Inserting a row stamped later than every stored row keeps timestamps strictly increasing with the id. |
| Proposals.StatusWritesKeepChronology | server.js:146-153 | Writes that change only statuses keep timestamps strictly increasing with the id. |
| Proposals.HistoryReversesCreation | server.js:180 | When timestamps strictly increase with the id, the history lists records in the reverse of their creation. |
| Markup.DecisionLink | server.js:70-71 | A link is the deployed origin and `/proposta/`, then the id's decimal digits, then `/aceitar` or `/recusar`; `ParseDecisionLinkRoundTrip` states that it leads back to that id and decision. |
| Markup.DecisionSuffix | server.js:70-71 | Both decision suffixes are eight characters long. |
| Markup.ParseDecisionLinkRoundTrip | server.js:70-71 | Following the accept or reject link of record `id` reaches that route with that same id. |
| Markup.DecisionLinkInjective | server.js:70-71 | Links of different records, or of different decisions, differ. |
| Markup.OccursAfter | server.js:74-115 | Text found in a suffix is found in the whole string. |
| Markup.PieceOccurs | server.js:74-115 | Each piece of a concatenation appears verbatim in it. |
| Markup.WindowOccurs | server.js:74-115 | Three consecutive pieces appear side by side, in order, in the concatenation. |
| Markup.ConcatEnds | server.js:74-115 | The concatenation starts with the first piece and ends with the last. |
| Markup.ComposeDispatch | server.js:70-115 | The markup opens with the letterhead and closes with the closing text. Each value sits verbatim and unescaped in its own slot: `cliente` between the letterhead and the text after it, then `empresa`, `valor`, `descricao` and the validity, each between the label before it and the text after it. The accept link of the id fills the first anchor and the reject link the second. |
| Dispatch.Deliver | server.js:117-156 | Rendering is always attempted first, and sending only after rendering succeeds. The status is "Enviado" exactly when both succeed, and "Falha" otherwise. |
| Dispatch.PendingRecord | server.js:57-60 | The INSERT binds the submitted `cliente`, `empresa`, `valor` and `descricao` to their columns, the recipient `to` to `email`, the rendered validity to `validade`, the store's clock to `data_envio`, and the status "Pendente". |
| Dispatch.Finish | server.js:67-156 | After an insert, the finalising UPDATE uses the id as a JavaScript Number. Only that record changes, and only in its status. It ends "Enviado" exactly when render and send both succeed, else "Falha", and the reply agrees. The markup rendered and sent is the composition of the fields and of the links for the integer Number::toString writes for that Number, so each field and link sits in its own slot. Up to 2^53 both the Number and the written integer are the inserted id. |
| Dispatch.SendEmail | server.js:46-156 | A failed insert stops the pipeline: no markup, no render, no send, and the store is unchanged. After a successful insert, the record gets a fresh id above every existing one and is first written "Pendente" with the submitted fields and the validity. The markup is the composition of those fields and of the links for the integer JavaScript writes for the new id, each in its slot. Only statuses change. |
| Dispatch.ServeSendEmail | server.js:46-156 | The route as deployed: the pipeline applied to `DispatchTemplate`, the server's text of server.js:74-115. Everything `SendEmail` and `SendEmailWhileExact` state holds of it with that template. |
| Dispatch.SendEmailWhileExact | server.js:46-156 | While the last id is below 2^53, the markup links to the new record. The new record ends "Enviado" exactly when render and send succeed, else "Falha", and no other record changes. |
| Dispatch.DispatchedLinksDecideTheirProposal | server.js:70-176 | While ids are below 2^53, a link in a dispatched proposal leads to the new record. Following it sets that record's status and leaves every earlier record unchanged. |
| Dispatch.RoundedIdFinalisesAnotherRecord | server.js:67-153 | With record 2^53 stored and last, the next dispatch inserts record 2^53 + 1 but finalises record 2^53, and the new record stays "Pendente". |
| Dispatch.RoundedIdLinksAnotherRecord | server.js:67-115 | With the last id at 2^53, the next dispatch inserts record 2^53 + 1 but its links lead to record 2^53. |
| Dispatch.TwiceExactLimitIdFinalisesItsRecord | server.js:67-153 | With the last id at 2^54 + 7, the dispatch finalises the new record 2^54 + 8 and changes no other record. |
| Dispatch.PrintedIdLinksAnotherRecord | server.js:67-115 | In that same dispatch the links lead to record 2^54 + 6, because Number::toString writes 2^54 + 8 as 18014398509481990. |
| Dispatch.SendEmailKeepsChronology | server.js:57-60 | With a clock that has moved past every stored timestamp, a dispatch keeps timestamps strictly increasing with the id. |

## Left out

- Transport. Express routing, CORS, body parsing, HTTP status codes, the reply
  texts, logging and `app.listen` are not modelled. Only the reply kind is kept.
- PDF rendering and e-mail sending. html-pdf and SendGrid are foreign
  libraries, so each is an outcome parameter, `Succeeded` or `Failed`. The
  e-mail envelope, the sender address and the base64 attachment are not
  modelled.
- SQL. The SQL text and the SQLite engine are replaced by a map and a `lastId`
  counter. An engine failure is a boolean parameter.
- `data_envio`. SQLite's `datetime('now')` is a caller-supplied integer
  timestamp. The text comparison of `ORDER BY data_envio` is taken to agree
  with numeric order, as it does for the fixed-width `YYYY-MM-DD HH:MM:SS`
  text.
- The finalising UPDATEs. They have no error callback and are taken to
  succeed.
- The clock and time zones. `new Date()` is a calendar-date parameter
  `today`, with the time of day taken as midnight UTC. The TimeClip boundary
  is therefore stated in whole days.
- Validity.ValidityText: `prazo` is an integer, so the text parsing of
  `parseInt` and the NaN date it gives for non-numeric input are not modelled.
- Validity.ValidityText: the pt-BR rendering of years before 1, with era
  notation, is excluded by the `Renderable` precondition.
- Markup.ComposeDispatch: it is stated for any `Template`. The dispatch
  pipeline is stated for every template too. The server's own text is
  `DispatchTemplate`, and `ServeSendEmail` applies the pipeline to it.
- The id in the decision routes. Express passes it as text, and SQLite
  compares it with the integer id. That coercion is not modelled: `Decide`
  takes the integer id.
- Decide: an unknown id matches no row, and the route still replies with its
  success message. The model follows that.
- Dispatch.SendEmail: the handler is treated as atomic. Node runs other
  requests while the render and the send are awaited (server.js:119-143), so
  a decision on the new record taken then is overwritten by the finalising
  UPDATE. No interleaving of requests is modelled.
- Dispatch.Finish: like `SendEmail`, it runs without other requests between
  the insert and the finalising UPDATE.
- Dispatch.SendEmail: the body fields are taken as present strings. The body
  is parsed JSON, so a field may be missing or not a string. A missing field
  is rendered as "undefined" in the markup but stored as NULL, and `true` is
  rendered as "true" but stored as "1". Those cases are not modelled.
- Dispatch.Finish: it takes the fields as present strings, as `SendEmail`
  does.
- Dispatch.SendEmail: the record linked to and the record finalised are
  named through `ToNumber` and `PrintedInteger`, not as the new record. Below
  2^53 they are always the new record (`SendEmailWhileExact`). From 2^53 on
  they can be another record: `RoundedIdFinalisesAnotherRecord` and
  `RoundedIdLinksAnotherRecord` show both going wrong for 2^53 + 1, and
  `PrintedIdLinksAnotherRecord` shows the links going wrong for 2^54 + 8,
  which `TwiceExactLimitIdFinalisesItsRecord` shows is still finalised
  correctly.
- JsNumber.PrintedInteger: section 6.1.6.1.20 of ECMA-262 asks for the
  fewest digits and recommends, among equally short choices, the one closest
  to the Number. The model tries only the multiple of each power of ten that
  lies nearest the Number. At a Number that is a power of two the doubles
  below are closer together than those above, so there alone a farther
  multiple could read back where the nearest does not. Among the Numbers of
  ids up to 2^63 - 1 a power of ten falls between those two gaps only at
  2^56, 2^59 and 2^62, and at each of them the nearest multiple lies above
  and reads back; the model does not prove this. Ties between two nearest
  multiples are broken towards the even one, which the standard leaves open.
- Dispatch.DispatchedLinksDecideTheirProposal: it is stated for ids below
  2^53 only, where the id is exactly a Number.
- The `/generate-pdf` preview route (server.js:23-43) is not modelled. It is
  a variant of the composition without a store or links.
- `backend/database.js` is not part of this model. It is an older schema
  without `validade`, and the server loads the root `database.js`.
