# RH leave-balance system: a Dafny model

This project models the core of a Brazilian HR system that manages employees' leave balances (`saldo_ferias`).

Employees request leave periods (`ferias`). A period is created, approved, cancelled, edited or deleted. Each of these moves days between the employee's balance and the approved requests. Once a year the balances are renewed, and on the same day a renewal can be undone.

Around this ledger sit:

- the pure leave and balance rules (`regras_ferias`, `regras_saldo`) and the constants they read;
- the calendar: business days, the eight fixed national holidays, the next holiday and the admission anniversary;
- the services that decide the order of validations and guarantee that nothing is written when validation fails;
- the validators, formatters, the HTML and SQL sanitisers, two query builders and the error-handling combinators;
- three helpers that live in UI files: the date-conflict check, recipient de-duplication, and the employee filters.

Six storage adapters implement the ledger transitions with small differences. The model has one ledger (`Ledger`) and describes each adapter by an `Adapter` value with these parameters:

- how it recognises an approved status (case-insensitive, exactly "Aprovada", or exactly "Aprovado");
- how it counts a request's days (business days or calendar days);
- whether approval is guarded by the balance;
- whether creation checks the notice rule;
- whether foreign keys are enforced;
- what an unknown identifier answers;
- whether the store offers the `_execute_query` helper through which the leave service looks a request up before changing its status.

The four adapters used are:

| Adapter | Source |
|---|---|
| `Ledger.Repository` | `FeriasRepository`, and the ledger methods of `SimplePsycopg2` |
| `Ledger.MySql` | `MySQLFeriasManager` |
| `Ledger.Sqlite` | `SQLiteDatabase` |
| `Ledger.Simple` | `SimpleDatabase` |

The headline invariant holds for every adapter: balance plus the days of the user's approved requests is preserved by create, status change, delete and the corrected edit. A guarded refusal commits nothing, so it preserves the invariant too. The invariant is about the state each call commits on its own: two effects that carry over between calls are not modelled (see "## Left out"). One is the MySQL refusal's pending status write. The other is the Simple adapter's cached read.

The source disagrees with itself in three places, so these values are parameters (`Constantes.Limits`) rather than constants:

- the maximum balance is 30 in the constants module and 12 in `code_standards.py` and in the unit tests;
- the minimum notice is 7 days in the constants module and 30 days in the tests;
- the refund on cancellation is capped by the rules and uncapped in the MySQL adapter.

`Constantes.SourceLimits` holds the values the code uses and `Constantes.TestedLimits` the values the tests assert. Lemmas such as `RegrasSaldo.LimitsConflict` and `RegrasFerias.NoticeThresholdConflict` exhibit the disagreement.

Moments in time are parameters:

- "today" is passed in as `hoje` or `referencia`;
- a renewal's timestamp is passed in as `agora` or `stamp`.

Failures of the database are parameters too: a `fails` flag, or `Renovacao.Fault` for which write fails.

Three error paths of the code behave differently from what their messages suggest, and the model follows the code:

- MySQL `add_ferias` with insufficient notice does not answer False. The `ValueError` raised before any cursor exists is caught by `except ValueError`, whose `return False` is then replaced by the `UnboundLocalError` the `finally` block raises when it tests the never-assigned `cursor`, so the caller sees that exception (`Ledger.Add`, reply `Raised`).
- MySQL `update_saldo_ferias` with an out-of-range value fails in the same way: its early `return False` is replaced by the `finally` block's `UnboundLocalError` (`Usuarios.MySqlUpdateBalance`).
- A 29 February admission with a common target year is a `Failure` result of `Calculos.NextAnniversary`, not a precondition, because the code raises there.

Dates are Python's proleptic Gregorian `date`: `Calendar.Date(year, month, day)` and its ordinal, with `date.weekday()` computed from the ordinal. Dates are printed and parsed in the ISO 8601 extended calendar-date form (YYYY-MM-DD) and in DD/MM/YYYY.

## Model

| member | source | states |
|---|---|---|
| Constantes.LimitsWellFormed | src/utils/constants.py:6-11 | Both limit sets keep 0 ≤ default ≤ maximum. They differ in the maximum (30 vs 12) and in the notice (7 vs 30). |
| Constantes.ParseStatus | src/utils/constants.py:59-66 | A text reads as a status exactly when it is one of the four feminine labels, and the status read back prints as that label. |
| Constantes.StatusRoundTrip | src/utils/constants.py:59-66 | Every status's label is among the offered options and reads back as the same status: labels and statuses correspond one to one. |
| Constantes.ParseLevel | src/utils/constants.py:69-74 | A key is an access level iff it is master, diretoria, coordenador or colaborador. |
| Constantes.LevelRoundTrip | src/utils/constants.py:69-74 | Every access level's key reads back as that level. |
| RegrasFerias.NoticeCheck | src/core/regras_ferias.py:26-57 | HR (`master`) is always accepted. Anyone else is accepted iff start − today ≥ the minimum notice, and the reported notice is exactly that difference. A message appears iff the check fails. |
| RegrasFerias.NoticeLaterStart | src/core/regras_ferias.py:37-50 | Moving the start later never turns an accepted notice into a refused one. |
| RegrasFerias.NoticeThresholdConflict | src/core/regras_ferias.py:37-50 | Ten days' notice passes with the constants module's 7 and fails with the tests' 30; HR passes either way. |
| RegrasFerias.PeriodCheck | src/core/regras_ferias.py:60-89 | End before start is refused with its message. Otherwise the period is accepted iff its inclusive calendar-day count is at most the maximum balance, and an accepted count is ≥ 1. |
| RegrasFerias.PeriodCoversBusinessDays | src/core/regras_ferias.py:71-89 | An accepted period's calendar-day count is never below its business-day count. |
| RegrasFerias.SufficiencyCheck | src/core/regras_ferias.py:92-125 | Any status but the exact "Aprovada" passes. "Aprovada" passes iff balance ≥ days, with balance − days ≥ 0 remaining. The sufficiency flag always reports balance ≥ days. |
| RegrasFerias.StatusImpact | src/core/regras_ferias.py:128-185 | The same status changes nothing. Approving debits the days iff the balance covers them, never leaving a non-negative balance below 0. Un-approving to Pendente, Cancelada or Rejeitada credits the days unless that exceeds the maximum. Every other pair leaves the balance. |
| RegrasFerias.ImpactKeepsBalanceInRange | src/core/regras_ferias.py:128-185 | From a balance in [0, maximum], every outcome that leaves a balance leaves one in [0, maximum]. |
| RegrasFerias.ApproveThenRevertRestores | src/core/regras_ferias.py:149-171 | Approving, then returning to a refund status, gives back the starting balance. |
| RegrasFerias.MasculineLabelRefundsNothing | src/core/regras_ferias.py:164-185 | Un-approving to the masculine "Rejeitado" is outside the table and refunds nothing. |
| RegrasSaldo.Clamp | src/core/regras_saldo.py:35-55 | Within well-formed limits the corrected balance lies within them. It equals the input when the input already does, the minimum when the input is below it, and otherwise the maximum when the input is above it. |
| RegrasSaldo.ClampIdempotent | src/core/regras_saldo.py:35-55 | Correcting a corrected balance changes nothing. |
| RegrasSaldo.CheckLimits | src/core/regras_saldo.py:25-55 | Valid iff minimum ≤ balance ≤ maximum. The correction is always the clamp. The reason is present iff invalid, and it says below-minimum or above-maximum. |
| RegrasSaldo.CorrectedBalanceIsValid | src/core/regras_saldo.py:25-55 | The suggested correction always passes the check, and checking it again suggests the same value. |
| RegrasSaldo.LimitsConflict | src/core/regras_saldo.py:20-55 | 15 is valid under the code's maximum of 30 and invalid, corrected to 12, under the tests' maximum; −1 is corrected to 0. |
| RegrasSaldo.TheoreticalBalance | src/core/regras_saldo.py:58-72 | The result is never below the minimum, never below default − Σ days, and equals default − Σ days whenever that is at least the minimum; a request without `dias_utilizados` counts 0. |
| RegrasSaldo.TheoreticalBalanceAntitone | src/core/regras_saldo.py:58-72 | One more approved request never raises the theoretical balance. |
| RegrasSaldo.TheoreticalBalanceExample | src/core/regras_saldo.py:58-72 | Requests of 5 and 3 days leave 4 of the default 12, with or without a request lacking the field; 20 days leave 0. |
| RegrasSaldo.DetectInconsistency | src/core/regras_saldo.py:75-105 | The difference is the absolute gap to the theoretical balance. The balance is inconsistent iff the gap exceeds one day, and only then is the theoretical balance suggested. |
| RegrasSaldo.CorrectionIsConsistent | src/core/regras_saldo.py:75-105 | Applying the suggested correction yields a consistent balance. |
| RegrasSaldo.WithPending | src/core/regras_saldo.py:108-128 | Pending days are the sum of the pending requests. The projection is max(minimum, balance − pending). Pending exist iff the sum is positive, and the balance suffices iff balance ≥ pending. |
| RegrasSaldo.SufficientProjectionIsExact | src/core/regras_saldo.py:119-128 | When the balance covers the pending days, the projection is exactly balance − pending. |
| RegrasSaldo.Intended | src/core/regras_saldo.py:143-153 | Only the three operation names adicionar, subtrair and definir ask for a balance. |
| RegrasSaldo.BalanceOperation | src/core/regras_saldo.py:131-172 | An unknown operation is invalid. Otherwise the intended balance is balance+v, balance−v or v. It is permitted iff that lies within the limits, and refused with the clamped correction otherwise. |
| RegrasSaldo.AddThenSubtract | src/core/regras_saldo.py:131-172 | Adding and then subtracting the same permitted amount returns to the start. |
| RegrasSaldo.OperationExamples | src/core/regras_saldo.py:155-172 | 10 − 5 is permitted with 5 left; 10 − 15 is refused and corrected to 0; "multiplicar" is not an operation. |
| Calculos.BusinessDays | src/utils/calculos.py:13-36 | An end before the start gives 0. Otherwise the count of Monday–Friday days in the inclusive period is at most its length. |
| Calculos.CountBusinessDays | src/utils/calculos.py:24-36 | The day-by-day loop counts exactly the business days of the period. It fails with OverflowError iff a non-empty period ends on 9999-12-31, where the step past the last counted day has no date. |
| Calculos.WeekHasFiveBusinessDays | src/utils/calculos.py:27-36 | Any seven consecutive days hold exactly five business days. |
| Calculos.WholeWeekAddsFive | src/utils/calculos.py:27-36 | Extending a period by a whole week adds exactly five business days. |
| Calculos.BusinessPlusWeekend | src/utils/calculos.py:27-36 | Every day of a period is either a business day or a weekend day. |
| Calculos.DaysWithHolidays | src/utils/calculos.py:39-71 | Fails with the OverflowError of the business-day count iff a non-empty period ends on 9999-12-31. Otherwise the total is span + 1, the gross business days are `BusinessDays`, and weekend days are total − business. The final days are business minus weekday holidays, floored at 0, and never more than business. |
| Calculos.WeekendCount | src/utils/calculos.py:54-70 | For an ordered period whose breakdown exists, the weekend count is the number of Saturdays and Sundays in it. |
| Calculos.DuplicateHolidayCountsTwice | src/utils/calculos.py:54-70 | A weekday holiday listed twice is deducted twice. |
| Calculos.Antecedencia | src/utils/calculos.py:74-88 | The notice is negative iff the start is before the reference, and zero iff they are the same day. |
| Calculos.FormatPeriodText | src/utils/calculos.py:91-107 | The sanitiser leaves the period text intact: it is "DD/MM/YYYY a DD/MM/YYYY", 23 characters. |
| Calculos.NextAnniversary | src/utils/calculos.py:110-131 | A result is a valid date strictly after the reference, with the admission's month and day, in the reference year or the next. Failure happens only for 29 February or year 9999: moving past 9999 fails with "year 10000 is out of range", every other failure with "day is out of range for month" on 29 February. |
| Calculos.NextAnniversaryExists | src/utils/calculos.py:121-131 | Apart from 29 February and year 9999, the next anniversary always exists. |
| Feriados.NationalHolidays | src/utils/feriados.py:12-33 | Exactly eight dates, all valid and in the given year, strictly ascending, and a date is among them iff it is one of the fixed holiday days of that year. |
| Feriados.HolidayName | src/utils/feriados.py:36-58 | A day gets the generic "Feriado Nacional" iff it is not one of the fixed holidays. |
| Feriados.HolidayNamesDistinct | src/utils/feriados.py:46-58 | The eight holidays have eight different names. |
| Feriados.IsHoliday | src/utils/feriados.py:118-129 | A date is a holiday iff its month and day are one of the eight fixed pairs. |
| Feriados.HolidaysInPeriodSpec | src/utils/feriados.py:61-96 | The month walk fails with ValueError iff a non-empty period ends in December 9999, since 1 January 10000 does not exist. Otherwise the list holds exactly the holidays h with start ≤ h ≤ end, strictly ascending, each with its name and weekday, and is empty when the end precedes the start. |
| Feriados.CountWeekdayEntries | src/utils/feriados.py:111-113 | The count is the number of positions whose weekday is Monday to Friday. |
| Feriados.CountHolidaysInPeriod | src/utils/feriados.py:99-115 | Fails exactly when the period list fails. Otherwise the count is the number of listed holidays whose weekday is Monday to Friday. |
| Feriados.CountPositiveIffWeekdayHoliday | src/utils/feriados.py:99-115 | When the count exists, it is positive iff some national holiday inside the period falls Monday to Friday. |
| Feriados.NextHolidaySpec | src/utils/feriados.py:132-164 | The next holiday is a holiday strictly after the reference, with positive days remaining, and no holiday lies strictly between them. |
| Feriados.NextHolidayFailure | src/utils/feriados.py:132-164 | The search fails exactly past 25 December 9999, when building 1 January of the next year is impossible. |
| Ledger.Add | src/database/ferias_repository.py:10-34 | A refused creation changes nothing. A stored request gets a fresh id, the adapter's day count and the given status, and its owner is debited exactly its days iff the status is approved for the adapter. Only an adapter that checks notice raises, exactly on insufficient notice for non-HR. Enforced foreign keys refuse an unknown owner. |
| Ledger.MySqlAddDebitsWithoutCover | src/database/mysql_ferias.py:24-51 | The MySQL adapter's sufficiency check never refuses "Aprovado", so an approved request is stored and debited whatever the balance. |
| Ledger.UpdateStatus | src/database/ferias_repository.py:49-81 | An unknown request answers the adapter's missing-id result with nothing changed. Otherwise the status is replaced. Non-approved → approved debits the days, approved → non-approved credits them, and any other change leaves balances. Under the guard an uncovered approval is refused with nothing committed. |
| Ledger.Delete | src/database/ferias_repository.py:83-108 | An unknown request answers the adapter's missing-id result. Otherwise the request is removed and its owner credited its days iff it was approved. |
| Ledger.ExactApprovalVariants | src/database/mysql_ferias.py:153-157 | Each exact approval test accepts one spelling only: "Aprovada" or "Aprovado". |
| Ledger.MasculineIsApprovedCaseInsensitively | src/database/ferias_repository.py:71-74 | The repository accepts "Aprovado", which the exact "Aprovada" test refuses. |
| Ledger.UpperCaseIsApprovedCaseInsensitively | src/database/ferias_repository.py:26 | The repository accepts "APROVADA", which both exact tests refuse. |
| Ledger.ExactApprovalIsCaseInsensitive | src/database/simple_psycopg2.py:345-351 | Whatever an exact test accepts, the case-insensitive test accepts too. |
| Ledger.CalendarCountsAtLeastBusiness | src/database/sqlite_database.py:181 | On an ordered period, the calendar-day count of the SQLite and simple adapters is never below the business-day count of the others. |
| Ledger.AddConserves | src/database/ferias_repository.py:26-29 | For every adapter, creating a request keeps each user's balance plus approved days, and keeps the ledger well formed. |
| Ledger.UpdateStatusConserves | src/database/ferias_repository.py:64-75 | For every adapter, a status change keeps each user's balance plus approved days. |
| Ledger.DeleteConserves | src/database/ferias_repository.py:98-102 | For every adapter, deleting a request keeps each user's balance plus approved days. |
| Ledger.AddThenDeleteRestores | src/database/ferias_repository.py:10-108 | Creating a request and deleting it again restores every balance and the request table. |
| Ledger.DeleteUndoesStore | src/database/sqlite_database.py:264-269 | Deleting a freshly stored request gives back its debit and frees its slot. |
| Ledger.GuardRefusesUncoveredApproval | src/database/mysql_ferias.py:157-164 | Under the MySQL guard, an approval the balance does not cover answers False and commits nothing. |
| Ledger.UnguardedApprovalMayGoNegative | src/database/ferias_repository.py:71-72 | Without the guard, approving a pending request larger than the balance drives the balance below zero. |
| Ledger.EditGate | src/database/__init__.py:127-145 | An edit is refused for an unknown request, or for a new approval the balance does not cover. Every other edit of a known request proceeds with the new business-day count. |
| Ledger.EditAsWritten | src/database/__init__.py:120-161 | A refused edit changes nothing. Otherwise the dates and days are overwritten, then the status change is delegated. |
| Ledger.EditAsWrittenKeepsStaleDebit | src/database/__init__.py:147-157 | Re-dating an approved request that stays approved changes its days but not the balance, so the owner's holding moves by the difference. |
| Ledger.Edit | src/database/__init__.py:120-161 | The corrected edit refuses exactly as the code does and changes nothing then. A successful edit leaves the request with the new dates, the new status and the new business-day count. |
| Ledger.EditConserves | src/database/__init__.py:147-157 | The corrected edit keeps each user's balance plus approved days. |
| Renovacao.CountedRenewal | src/database/renovacao_repository.py:10-13 | The year check counts the year's records and answers whether the count is positive: exactly when a record for the year exists. Under the unique key the count is at most 1. |
| Renovacao.AddToActive | src/database/renovacao_repository.py:24-27 | Every active user gains the amount; inactive users and every other table are untouched. |
| Renovacao.SubtractFromActive | src/database/renovacao_repository.py:88-92 | Active users whose balance covers the amount lose it; everyone else is untouched. |
| Renovacao.Renew | src/database/renovacao_repository.py:15-57 | Test mode succeeds with no change. A year already renewed is refused with no change. Success adds the amount to active users and records the year. If the record insert fails after the update, balances stay raised and False is returned. |
| Renovacao.RenewOncePerYear | src/database/renovacao_repository.py:18-21 | A successful renewal records its year and keeps years unique; a second renewal for that year is refused and changes nothing. |
| Renovacao.LatestIndex | src/database/renovacao_repository.py:71-74 | The record undo picks has the latest timestamp. SQL leaves ties open; the model picks the latest inserted among them, so no later-inserted record shares its timestamp. |
| Renovacao.Undo | src/database/renovacao_repository.py:68-109 | With no record, or with the latest record applied on another day, undo fails with its message and no change. Success subtracts the recorded amount from covering active users and deletes that record. |
| Renovacao.RenewThenUndo | src/database/renovacao_repository.py:89-101 | Undo on the renewal day restores the record list and every balance the subtraction does not skip. |
| Renovacao.UndoSkipsNegativeBalance | src/database/renovacao_repository.py:89-92 | An active user whose balance was negative before the renewal is skipped by the undo and keeps the renewed amount. |
| Renovacao.Migrate | src/database/simple_psycopg2.py:535-563 | Afterwards every user has a row for the year. New rows start and stay at the user's balance, existing rows are untouched, and the answer is the number of rows created (0 on failure). |
| Renovacao.MigrateIdempotent | src/database/simple_psycopg2.py:544-561 | A second migration of the same year creates nothing and changes nothing. |
| Usuarios.View | src/database/mysql_users.py:107-122 | A NULL balance that pandas delivers as `None` reads as 0. That happens when every balance in the result is NULL. With no requests the projection is the balance itself. Otherwise it is max(0, balance − pending days). |
| Usuarios.ViewAgreesWithPendingRule | src/database/mysql_users.py:107-117 | Once a user has any request, the listing's projection equals the balance rule's projection with every pending request approved. |
| Usuarios.NegativeBalanceDependsOnHistory | src/database/mysql_users.py:107-122 | A negative balance is shown as is with no requests, but as 0 once the user has any request. |
| Usuarios.MySqlUpdateBalance | src/database/mysql_users.py:200-250 | An out-of-range value raises and writes nothing. An in-range value for a known user is written. The answer is True iff the stored value changed, because MySQL counts only changed rows. An audit entry is attempted iff the value changed. |
| Usuarios.MySqlUpdateBalanceIdempotent | src/database/mysql_users.py:223-240 | Writing the same balance again changes nothing, audits nothing and answers False. |
| Usuarios.PsycopgUpdateBalance | src/database/simple_psycopg2.py:270-272 | Any value is written verbatim, and an unknown user still answers True. |
| Usuarios.OnlyMySqlBoundsTheBalance | src/database/mysql_users.py:204-207 | psycopg2 stores a balance of 45; MySQL refuses it and changes nothing. |
| Usuarios.CreateUser | src/database/simple_psycopg2.py:226-249 | A taken e-mail answers False with nothing inserted. Otherwise a user is added under a fresh id with the given fields and the admission date defaulting to today. Only MySQL starts `ultima_renovacao` at the admission date. |
| Usuarios.CreateKeepsEmailsUnique | src/database/simple_psycopg2.py:230-233 | Creating users keeps the stored e-mails unique under the store's comparison. |
| Usuarios.UpdateUser | src/database/mysql_users.py:158-179 | An e-mail held by another user refuses the update with no change. An unknown user changes nothing, answering True only in psycopg2. Otherwise exactly that user's fields are replaced; MySQL answers True only if some field changed, psycopg2 always. |
| Usuarios.UpdateKeepsEmailsUnique | src/database/mysql_users.py:158-179 | Updating a user keeps the stored e-mails unique. |
| Usuarios.MySqlEmailIgnoresCase | src/database/mysql_users.py:130-156 | MySQL refuses an address differing from a stored one only in case; psycopg2 accepts it. |
| ServicoFerias.ValidateRequest | src/services/ferias_service.py:38-123 | Checks run in the order period, then notice (skipped for master), then business days, then sufficiency. The first failure decides the type. A zero-business-day period is the escaping validation error. The balance is required only for exactly "Aprovada", and is looked up among the active users; a user missing there gets the lookup error with the exception's text. |
| ServicoFerias.Register | src/services/ferias_service.py:125-182 | The store is called only when validation accepts, and then the answer carries the business days. A refusal or escaping validation error leaves the ledger unchanged. |
| ServicoFerias.RegisteredApprovalIsCovered | src/services/ferias_service.py:86-110 | Through an adapter that counts business days and recognises "Aprovada", a registered "Aprovada" request never leaves its owner below zero. |
| ServicoFerias.MasculineStatusSkipsBalanceCheck | src/services/ferias_service.py:86-110 | "Aprovado" passes validation whatever the balance, and the repository then debits it into the negative. |
| ServicoFerias.ChangeStatus | src/services/ferias_service.py:301-353 | The request is looked up first. An unknown request, or any request through a store without the `_execute_query` lookup helper, is answered "not found" and nothing changes. Otherwise the adapter's status change decides both the answer and the new state. A success means the request existed and only its status changed. |
| ServicoFerias.Approve | src/services/ferias_service.py:481-491 | A successful approval leaves the request with status "Aprovado" and its days unchanged. |
| ServicoFerias.Cancel | src/services/ferias_service.py:493-503 | A successful cancellation leaves the request with status "Rejeitado" and its days unchanged. |
| ServicoFerias.ChangeStatusConserves | src/services/ferias_service.py:301-328 | Every status change through the service keeps balance plus approved days. |
| ServicoFerias.StatusChangesNeedTheRepository | src/services/ferias_service.py:330-353 | Through the MySQL, SQLite and simple stores, which lack the lookup helper, every approval and cancellation is answered "not found" and changes nothing. |
| ServicoFerias.CancelRefundsApprovedDays | src/services/ferias_service.py:493-503 | Through the repository, cancelling an approved request gives its days back. |
| ServicoFerias.ApprovedDaysTotal | src/services/ferias_service.py:448-479 | The total is the days of rows whose status is exactly "Aprovado"; unreadable or empty rows give 0. |
| ServicoFerias.FeminineApprovalNotCounted | src/services/ferias_service.py:459-479 | Rows approved as "Aprovada", the label the rules use, add nothing to the total. |
| ServicoColaboradores.ValidateEmployee | src/services/colaboradores_service.py:38-108 | Valid iff name, e-mail, password, sector, role and balance all pass. The first failing field in that order is reported. Only a balance failure carries the clamped suggestion. |
| ServicoColaboradores.NormalEmail | src/services/colaboradores_service.py:146-147 | The stored address is as long as the stripped address and holds no upper-case ASCII letter. |
| ServicoColaboradores.RegisterEmployee | src/services/colaboradores_service.py:111-174 | Invalid data never reaches the store. A saved user has the validated balance within limits and a fresh id. An e-mail refusal after validation means the store found the address taken. |
| ServicoColaboradores.StoresAgreeOnNormalisedEmails | src/services/colaboradores_service.py:146-147 | Once every stored address went through the service, the case-insensitive and the exact store refuse the same new addresses. |
| ServicoColaboradores.RegisterKeepsEmailsNormalised | src/services/colaboradores_service.py:130-154 | Registering through the service keeps every stored address normalised. |
| ServicoColaboradores.UpdateEmployee | src/services/colaboradores_service.py:211-283 | Name, e-mail and balance are checked before any write. The update is saved iff they pass and the store answers True, so on MySQL resubmitting the stored values is refused as "Erro ao atualizar colaborador". A refusal leaves the ledger unchanged. |
| ServicoColaboradores.UpdateEmployeeBalance | src/services/colaboradores_service.py:316-362 | An out-of-range value is refused with the clamped suggestion and no write. In range, it is saved iff the store is psycopg2 or the user exists with a different balance; saving writes exactly the new value, and any other in-range case is "Erro ao atualizar saldo". |
| ServicoColaboradores.UpdateEmployeeBalanceUndo | src/services/colaboradores_service.py:330-351 | Setting a balance and then the old one back restores the ledger. |
| ServicoRenovacao.ValidateRenewal | renovacao_anual_backup/renovacao_service.py:14-35 | Valid iff the error list is empty, iff the year is in [2024, 2030], the amount in [0, 30] and, on a store with `verificar_renovacao_ano`, the year not yet renewed. A DataFrame store lacks that method, and the check is skipped. Each error appears iff its own condition fails. |
| ServicoRenovacao.ExecuteRenewal | renovacao_anual_backup/renovacao_service.py:77-99 | An invalid request is answered with the errors joined by "; " and never reaches the store. A valid one through a DataFrame store, which lacks `renovar_saldo_anual`, fails with the "truth value of a DataFrame is ambiguous" error and writes nothing: the fallback's `if usuarios` raises. Otherwise success requires a store with the method and no fault, and is that store's renewal. |
| ServicoRenovacao.FrameStoreNeverRenews | renovacao_anual_backup/renovacao_service.py:77-99 | A store without the renewal methods never renews and never writes. An in-range request fails with the DataFrame error even for a year already renewed, because the year check is skipped. |
| ServicoRenovacao.ExecuteOncePerYear | renovacao_anual_backup/renovacao_service.py:77-99 | After a successful renewal of a year, a second one is refused by validation and changes nothing. |
| ServicoRenovacao.Preview | renovacao_anual_backup/renovacao_service.py:101-141 | No users give no preview, and neither does a DataFrame store whatever its users: `if not usuarios` raises there, and the handler returns None. Otherwise the totals count the users and sum the balances, and the new total is the current total plus the sum of moves to the new value. |
| ServicoRenovacao.SumMovesIsDifference | renovacao_anual_backup/renovacao_service.py:111-117 | The preview's total difference is users × new value − current total: overwrite arithmetic. |
| ServicoRenovacao.PreviewDisagreesWithAdditiveRenewal | renovacao_anual_backup/renovacao_service.py:111-117 | The preview's new total equals the sum of balances after the additive renewal iff the current balances sum to zero. |
| Menus.FirstConflict | src/menus/gerenciar_ferias.py:357-369 | None iff no occupied period overlaps the new one, inclusive of endpoints. Otherwise it is the position of the first overlapping period in list order. |
| Menus.CheckConflict | src/menus/gerenciar_ferias.py:357-369 | No message for an empty list. No message iff nothing overlaps. Otherwise the message names the first overlapping period. |
| Menus.TouchingEndpointsConflict | src/menus/gerenciar_ferias.py:364 | A period starting on the last day of an occupied one conflicts with it. |
| Menus.OverlapSymmetric | src/menus/gerenciar_ferias.py:364 | Overlap does not depend on which period is the new one. |
| Menus.ConflictStableUnderAppend | src/menus/gerenciar_ferias.py:362-367 | Appending occupied periods never changes a conflict message already found. |
| Menus.KeepFirstIds | src/menus/avisos.py:216-224 | The reference de-duplication keeps one element per id and every id it saw. |
| Menus.DedupById | src/menus/avisos.py:216-224 | The loop equals the reference. It keeps distinct ids, only input elements, and one element for every input id. |
| Menus.SelectedNames | src/menus/avisos.py:213 | Each selected option is cut at its first " - ". |
| Menus.Candidates | src/menus/avisos.py:203-214 | A user is a candidate iff it matches a selected sector, a selected role or a selected name. |
| Menus.FilterRecipients | src/menus/avisos.py:197-226 | A listing that raised, or one given as a DataFrame (the MySQL, SQLite and Simple stores), gives []. Only a list of records (the `SimplePsycopg2` and `UsersRepository` stores) is filtered: the result has distinct ids, holds only addressed users, covers every addressed user's id, and is the first-occurrence de-duplication of the candidates. |
| Menus.ApplyFilters | src/menus/gerenciar_colaboradores.py:55-76 | The result is a sub-list of the rows. It holds exactly the rows passing the case-insensitive name search and the sector, role and balance selections. |
| Menus.NeutralFiltersKeepAll | src/menus/gerenciar_colaboradores.py:59-68 | With every filter at its neutral value nothing is removed. |
| Menus.OfferedSaldoLabelsNeverFilter | src/menus/gerenciar_colaboradores.py:68-74 | None of the balance labels the screen offers narrows the rows, because they never equal the tested labels. |
| Validacao.SplitIsUnique | src/utils/validators.py:7-10 | The e-mail pattern can only cover a text by splitting at its first '@' and its last dot. |
| Validacao.CoversEmail | src/utils/validators.py:7-10 | The one-pass decision agrees with the pattern covering the whole text. |
| Validacao.RegexMatches | src/utils/validators.py:7-10 | The anchored match accepts exactly the covered texts and covered texts followed by one newline. |
| Validacao.EmailValid | src/utils/validators.py:7-10 | An accepted address has an '@' after a non-empty local part. |
| Validacao.AcceptedEmailShape | src/utils/validators.py:7-10 | An accepted address has a non-empty local part free of '@', then an '@', then a dot later on. |
| Validacao.TopLevelDomainNeedsTwoLetters | src/utils/validators.py:7-10 | With valid local part and domain, the address is accepted iff its letter top-level domain has at least two letters. |
| Validacao.TrailingNewlineAccepted | src/utils/validators.py:7-10 | The raw pattern also accepts a valid address followed by a newline. |
| Validacao.EmailValidStripped | src/utils/validacoes.py:13-27 | None, non-text and empty text are refused. A non-empty text is accepted iff its stripped form is covered by the pattern. |
| Validacao.PasswordValid | src/utils/validators.py:12-16 | Valid iff at least 6 characters; a refusal mentions "6 caracteres". |
| Validacao.PasswordValidChecked | src/utils/validacoes.py:30-46 | Valid iff at least 6 characters, with no message on success and "Senha é obrigatória" for the empty password. |
| Validacao.PasswordRulesAgree | src/utils/validacoes.py:30-46 | The two password validators accept the same passwords. |
| Validacao.NameValid | src/utils/validators.py:18-22 | Valid iff the stripped name has at least 2 characters. |
| Validacao.NameValidChecked | src/utils/validacoes.py:49-70 | Valid iff the stripped name has 2 to 100 characters; a blank name gets "Nome é obrigatório". |
| Validacao.NameRulesNested | src/utils/validacoes.py:49-70 | Every name the stricter validator accepts, the other accepts too; blank names fail both. |
| Validacao.ParseIsoRoundTrip | src/utils/validacoes.py:91-95 | Parsing a date printed as YYYY-MM-DD gives the date back. |
| Validacao.ParseBrRoundTrip | src/utils/validacoes.py:96-100 | Parsing a date printed as DD/MM/YYYY gives the date back. |
| Validacao.FormsExclusive | src/utils/validacoes.py:91-102 | No text parses in both forms, so trying ISO first never hides a Brazilian reading. |
| Validacao.DateValid | src/utils/validacoes.py:73-104 | A date is valid iff one is returned. None gets "Data é obrigatória". A date object is returned as is. Text is read as ISO first, then as DD/MM/YYYY. Integers, bools, floats and other values are refused. |
| Validacao.PrintedDatesValidate | src/utils/validacoes.py:83-104 | Any valid date printed in either form validates to itself. |
| Validacao.ParseIntRoundTrip | src/utils/validacoes.py:119-122 | `int(str(n))` gives `n` back. |
| Validacao.Truncate | src/utils/validacoes.py:118 | The integer a float converts to is its integer part, cut toward zero. |
| Validacao.IntOf | src/utils/validacoes.py:118 | An integer converts to itself, a bool to 0 or 1, a finite float to its truncation, text through the decimal reader; None, a date or another value does not convert. |
| Validacao.IntegerValid | src/utils/validacoes.py:107-131 | Valid iff a value is returned, iff the value converts and lies within the given bounds; an absent bound is not checked. A value that does not convert gets the not-an-integer message, and one below the minimum the message naming it. |
| Validacao.IntegerValidConversions | src/utils/validacoes.py:107-131 | 3.7 is judged as 3 and −0.5 as 0, so −1.5 fails a minimum of 0; True is judged as 1. |
| Validacao.IntegerTextAgrees | src/utils/validacoes.py:107-131 | A number given as text validates exactly as the number itself. |
| Validacao.RequiredText | src/utils/validacoes.py:134-148 | Valid iff the stripped text is non-empty; a failure names the field. |
| Validacao.OptionValid | src/utils/validacoes.py:151-167 | Valid iff the value is one of the options; a failure lists them joined by ", ". |
| Formatters.FormatDate | src/utils/formatters.py:6-16 | A date prints as DD/MM/YYYY that reads back as the date. ISO text is reprinted to read back as the same date. Any other text or value is shown unchanged. |
| Formatters.IsoTextShownAsItsDate | src/utils/formatters.py:6-16 | An ISO text and the date it spells are shown alike. |
| Formatters.FormatDateIdempotent | src/utils/formatters.py:6-16 | Formatting a text twice is formatting it once. |
| Formatters.FormatBalanceReadsBack | src/utils/formatters.py:18-20 | The printed count reads back as the balance, and the singular "dia" appears exactly for 1, zero included in the plural. |
| CodeStandards.ValidateBalance | src/utils/code_standards.py:108-120 | Valid iff 0 ≤ balance ≤ 12; the message says "menor que" below and "maior que" above. |
| CodeStandards.ValidatorsDisagreeAboveTwelve | src/utils/code_standards.py:69-70 | This validator accepts a subset of what the balance rules accept: 13 to 30 pass the rules only, and it agrees with the rules under the tests' limits. |
| CodeStandards.ValidatePassword | src/utils/code_standards.py:98-105 | Accepts exactly the passwords the validators module accepts. |
| CodeStandards.SelectFieldsLeadsQuery | src/utils/code_standards.py:194-196 | Once any field is chosen, the built query starts with "SELECT " and all chosen fields, earlier ones first, separated by ", "; the clauses after it are unchanged. |
| CodeStandards.JoinTablePlacesClause | src/utils/code_standards.py:202-204 | A new JOIN clause is placed after FROM and the earlier joins and before WHERE, ORDER BY and LIMIT; every other clause stays as it was. |
| CodeStandards.OrderByPlacesClause | src/utils/code_standards.py:210-212 | A new ordering extends the ORDER BY clause, which sits after WHERE and before LIMIT; the clauses before it are unchanged. |
| CodeStandards.FromTable | src/utils/code_standards.py:198-200 | The fluent call always fails: the attribute set at line 188 hides the method. |
| CodeStandards.WherePart | src/utils/code_standards.py:235-237 | A WHERE clause appears iff some condition was added. |
| CodeStandards.LimitPart | src/utils/code_standards.py:243-245 | A LIMIT clause appears iff the limit is set and not 0. |
| CodeStandards.BuildShape | src/utils/code_standards.py:218-247 | A built query starts with its SELECT clause and, when a limit is set, ends with a space and its LIMIT clause. |
| CodeStandards.EmptySelectIsStar | src/utils/code_standards.py:218-247 | A builder with no fields builds a query starting "SELECT *". |
| CodeStandards.LimitAppends | src/utils/code_standards.py:214-216 | A limit of 0 is no limit; any other limit appends " LIMIT n" to the query without one. |
| CodeStandards.WhereConjoins | src/utils/code_standards.py:206-208 | A further condition is joined to the WHERE clause with " AND ", or opens it; every other clause stays where it was. |
| CodeStandards.CreateDefaultUser | src/utils/code_standards.py:252-264 | The level is master iff the role contains "RH", case-sensitively, and colaborador otherwise. The balance is the default 12, the id is 0, and the given fields are kept. |
| CodeStandards.DefaultUserBalanceValid | src/utils/code_standards.py:252-264 | The default balance passes both this file's validator and the balance rules. |
| CodeStandards.LowerCaseRhIsNotMaster | src/utils/code_standards.py:252-264 | "Analista RH" makes a master; "rh" does not. |
| CodeStandards.CreateDefaultLeave | src/utils/code_standards.py:268-277 | A default leave is always pending with id 0 and keeps the given fields. |
| CodeStandards.DefaultLeaveIsPending | src/utils/code_standards.py:268-277 | A default leave's label reads back as the pending status. |
| CodeStandards.FormatPeriod | src/utils/code_standards.py:171-176 | Both ends are shown as the date formatter shows a text, joined by " a ". |
| HtmlSecurity.Escape | src/utils/security.py:21-22 | Escaped text has no '<', '>' or quote and is never shorter. |
| HtmlSecurity.EscapeRoundTrip | src/utils/security.py:21-22 | Unescaping the escaped text gives the original back. |
| HtmlSecurity.EscapePlain | src/utils/security.py:21-22 | Text without markup characters is left unchanged by escaping. |
| HtmlSecurity.RemoveAll | src/utils/security.py:38-39 | The removal only deletes characters: the result is no longer and draws every character from the input. |
| HtmlSecurity.SanitizeHtml | src/utils/security.py:8-41 | Non-strings become their `str()`. A sanitised string contains no '<' or '>'. |
| HtmlSecurity.SanitizePlain | src/utils/security.py:8-41 | Plain text with no markup character and no marker passes through unchanged. |
| HtmlSecurity.RemoveAllSinglePass | src/utils/security.py:38-39 | The removal deletes a match and does not rescan the text around it. |
| HtmlSecurity.NestedMarkerSurvives | src/utils/security.py:30-39 | "javajavascript:script:" comes out as "javascript:". |
| HtmlSecurity.ValidateInput | src/utils/security.py:87-111 | Accepted iff the value is text, within the maximum length, and either HTML is allowed or it contains no `<…>` tag. |
| HtmlSecurity.SanitizedHasNoTag | src/utils/security.py:8-41 | Sanitised text never looks like a tag to the validator. |
| HtmlSecurity.Render | src/utils/security.py:132 | Formatting fails iff some field has no argument, and the error names such a field. |
| HtmlSecurity.SafeFormatHtml | src/utils/security.py:113-132 | The template is filled with the string arguments sanitised and every other argument shown as its `str()`. |
| HtmlSecurity.SafeFormatNoAngles | src/utils/security.py:113-132 | With literal text free of angle brackets and only string arguments, the page has no angle bracket. |
| SqlSecurity.ValidateInputAsWritten | src/database/sql_security.py:29-53 | Non-strings are safe. A string with an OR/AND 1=1 tautology or a `UNION\s+SELECT` match, case-insensitive, is unsafe. |
| SqlSecurity.DottedCapitalIPassesKeywords | src/database/sql_security.py:18-53 | "UNİON SELECT" (U+0130) contains no keyword once upper-cased, and is still refused, by the `UNION\s+SELECT` pattern. |
| SqlSecurity.UpperKeywordRefusedAsWritten | src/database/sql_security.py:43-46 | A text holding any keyword that the list spells in upper case, in upper or lower case, is refused by the check as written. |
| SqlSecurity.LowerCaseKeywordsNeverMatch | src/database/sql_security.py:43-46 | The upper-cased input never contains the listed keywords "xp_" and "sp_". |
| SqlSecurity.ExtendedProcedureAccepted | src/database/sql_security.py:11-15 | "xp_cmdshell" passes the check as written. |
| SqlSecurity.ValidateInput | src/database/sql_security.py:29-53 | The corrected check: non-strings are safe, a tautology or a `UNION\s+SELECT` match is unsafe, and it refuses everything the check as written refuses. |
| SqlSecurity.KeywordRefused | src/database/sql_security.py:43-46 | A string containing a listed keyword, as listed or in lower case, is refused. |
| SqlSecurity.ExtendedProcedureRefused | src/database/sql_security.py:11-15 | The corrected check refuses "xp_cmdshell". |
| SqlSecurity.DoubleQuotesRoundTrip | src/database/sql_security.py:69-70 | Doubled text has every quote paired, and undoubling gives the text back. |
| SqlSecurity.DoubleQuotesKeepsControl | src/database/sql_security.py:69-73 | Doubling quotes and removing control characters commute. |
| SqlSecurity.RemoveControl | src/database/sql_security.py:72-73 | The result has no control character, and text without one is unchanged. |
| SqlSecurity.SanitizeStringAsWritten | src/database/sql_security.py:56-78 | Non-strings become their `str()`. A string gives at most 1000 characters with no control character. When no cut is needed, the result undoubles to the cleaned input. |
| SqlSecurity.CutSplitsQuotePair | src/database/sql_security.py:76 | 999 letters and a quote sanitise to text ending in an unpaired quote. |
| SqlSecurity.Fit | src/database/sql_security.py:76 | The longest prefix whose doubled form fits the budget: all of the text when it fits. |
| SqlSecurity.SanitizeString | src/database/sql_security.py:56-78 | The corrected sanitiser keeps the length bound and removes control characters. Quotes are always paired, the result undoubles to a prefix of the cleaned input, and it equals the code's result when no cut is needed. |
| SqlSecurity.AllSafe | src/database/sql_security.py:91-92 | Safe iff every element passes the given input check; the program's is the check as written (`AsWritten`). |
| SqlSecurity.ValidateParams | src/database/sql_security.py:81-96 | Under the given check, a list or tuple is safe iff every element is, a dict iff every value is, and a single value iff it is. The program calls `validate_input` as written (`AsWritten`). |
| SqlSecurity.CorrectedParamsPassAsWritten | src/database/sql_security.py:81-96 | Parameters the corrected check accepts also pass the check the program runs. |
| SqlSecurity.Select | src/database/sql_security.py:105-115 | Succeeds iff the table name is an identifier. It then replaces the statement and keeps the parameters. |
| SqlSecurity.Where | src/database/sql_security.py:117-125 | Succeeds iff every parameter passes the given check (`AsWritten` in the program). It then appends the condition unchecked and the parameters in order. |
| SqlSecurity.WhereAcceptsExtendedProcedure | src/database/sql_security.py:117-125 | The program's `where` accepts the parameter "xp_cmdshell"; with the corrected check it fails. |
| SqlSecurity.Placeholders | src/database/sql_security.py:138 | The placeholder list holds exactly one '?' per column. |
| SqlSecurity.SetClause | src/database/sql_security.py:154 | With column names free of '?', the SET clause holds exactly one '?' per column. |
| SqlSecurity.Insert | src/database/sql_security.py:127-142 | Succeeds iff the table name is valid and every value passes the given check (`AsWritten` in the program). The parameters are the values in key order, and the statement ends with one placeholder per column. |
| SqlSecurity.Update | src/database/sql_security.py:144-158 | Succeeds iff the table name is valid and every value passes the given check (`AsWritten` in the program). The parameters are the values in key order. With column names free of '?', the statement holds one placeholder per column beyond any in the table name. |
| SqlSecurity.Delete | src/database/sql_security.py:160-167 | Succeeds iff the table name is valid. It then replaces the statement and keeps the parameters. |
| SqlSecurity.TableNameHasNoSeparators | src/database/sql_security.py:111-112 | A valid table name holds no quote, semicolon or space. |
| ErrorHandler.HandleCritical | src/utils/error_handler.py:49-95 | Success iff the call returned, carrying its value. Validation and authentication errors show their own message. Database errors show a fixed message. Every other exception gets another fixed message without logging; with logging, the wrapper itself raises the logger's KeyError about overwriting 'args', and only then. |
| ErrorHandler.MissingFields | src/utils/error_handler.py:130-139 | Exactly the required fields that are absent or falsy, the first of them first. |
| ErrorHandler.ValidateRequiredFields | src/utils/error_handler.py:130-139 | Raises iff some required field is absent or falsy. The field reported is the first such field, and the message lists them all. |
| ErrorHandler.MissingFieldShownFirst | src/utils/error_handler.py:130-139 | Inside a critical operation, with or without logging, the caller sees the message that names the first absent field right after the prefix. |
| ErrorHandler.RequiredFieldsMonotone | src/utils/error_handler.py:130-139 | Adding a truthy value never makes a passing check fail. |
| ErrorHandler.RetryOperation | src/utils/error_handler.py:220-246 | Calls stop at the first success and never exceed the maximum. It succeeds iff some allowed attempt returns, with the first returned value. After all attempts fail, it reports the last error. With no attempt allowed it makes no call. |
| ErrorHandler.ValidateAndExecute | src/utils/error_handler.py:262-279 | The operation runs iff validation returns a truthy "valido". Success iff it then returns. A refusal carries the validation's error. Validation errors show their message; anything else is an internal error. |
| ErrorHandler.FirstFailure | src/utils/error_handler.py:291-299 | The first operation that raises, if any, with all earlier ones returned. |
| ErrorHandler.RollbackOrder | src/utils/error_handler.py:300-308 | Exactly the finished operations with a rollback, in strictly decreasing order. |
| ErrorHandler.ExecuteWithRollback | src/utils/error_handler.py:285-310 | Success iff no operation raises, with every result in order. On failure it returns a fixed message, and the operations rolled back are exactly the finished ones with a rollback, last first. |
| ErrorHandler.RollbackRestores | src/utils/error_handler.py:300-308 | When every finished operation's rollback reverses it, the reverse-order rollback restores the initial state. |

## Left out

- I/O, connections, commits, cursors and SQL text are left out. Each adapter's transitions are modelled on the stored state; the `print` logging and the Streamlit screens around the three UI helpers are left out as well.
- Usuarios.View: a NULL balance in a result where other balances are not NULL arrives from `pd.read_sql` as NaN. NaN passes the `is not None` test, so the user is shown NaN with no requests and 0 with requests. The model has no NaN: `saldo` is `None` or an integer. The column defaults to 12 and no code writes NULL.
- Row counts are modelled for the MySQL user updates, where an unchanged row answers False. Elsewhere a statement that succeeds is taken as True, except where the code tests for the row first.
- Ledger.Add: on `Ledger.MySql`, an approved period of zero business days is committed with a debit of 0 and then answers False, because the last statement, the debiting UPDATE, changed no row. The model answers True and stores it. The leave service refuses such periods before the store is reached.
- SQLite foreign keys are not enforced by default. This appears only as the adapter's `foreignKey` flag: an unknown owner is stored.
- A NULL `status` or `saldo_ferias` reaching the rules would raise `TypeError`. Balances are integers and statuses are texts here; the only NULL modelled is the balance read by `get_users`, when pandas delivers it as `None`.
- `datetime.strptime` also accepts single-digit fields, and `int()` accepts underscores between digits. The parsers model only the zero-padded ten-character dates and plain decimal digits.
- Validacao.IntegerValid: bytes and bytearrays, which `int()` also reads as decimal text, fall under `PyOther` and get the not-an-integer message. An infinite float makes `int()` raise OverflowError, which escapes the validator, and a NaN raises a caught ValueError; floats are modelled as finite values only.
- `str.lower`/`str.upper` are modelled on ASCII letters. `SqlSecurity` also handles the dotless i and the long s, whose upper case is ASCII. Case mappings that change length, such as ß and ligatures, are not modelled.
- Dates exist up to year 9999. Where the code steps past the last date, the model gives a `Failure`: the next anniversary, the day-by-day loop of `Calculos.CountBusinessDays`, `Calculos.DaysWithHolidays` and the month walk of `Feriados.HolidaysInPeriod`.
- Calculos.BusinessDays: gives the count also for a non-empty period ending on 9999-12-31, where `calcular_dias_uteis` raises OverflowError after counting the last day (`Calculos.StepsPastLastDate`). The callers that take this count, `Ledger.Add`, `Ledger.Edit` and `ServicoFerias.ValidateRequest`, therefore do not model that exception either.
- `simular_renovacao` and the preview's `saldo_medio` use floating point and are left out; the preview keeps its integer totals.
- Password hashing (`bcrypt`) and the database collation beyond ASCII case are left out.
- The name filter's `str.contains` treats its argument as a regular expression. The model treats it as a literal, case-insensitive substring.
- ServicoRenovacao.ExecuteRenewal: an AttributeError raised from inside a present `renovar_saldo_anual`, after some writes, is not modelled. The simulated success message of the fallback is never produced by a repository store: each store without the method lists users as a DataFrame, and the fallback raises before it. Per-sector grouping and the statistics queries are left out.
- Exceptions inside services that become "Erro interno" are modelled where the code raises them: the zero-business-day validation and the MySQL unbound cursor. Arbitrary driver exceptions are left out.
- `secure_execute` and `SecureQuery.build` are left out: the first is a database call, the second returns the state as it is.
- `safe_execute`, `handle_database_operation`, `handle_business_operation`, `safe_database_operation`, `monitor_resource_usage`, `log_operation` and the logging setup wrap calls with logging only, and are left out.
- ErrorHandler.HandleCritical: the log calls are modelled only through the KeyError of the critical one, assuming the CRITICAL level is enabled, as the module's `basicConfig(level=logging.INFO)` makes it. The other log calls of the wrapper pass no clashing key and only write log lines.
- Ledger.GuardRefusesUncoveredApproval: "commits nothing" is about the committed state. The MySQL adapter issues the status UPDATE before the guard (mysql_ferias.py:149) and returns False without a rollback. Its connection is reused and not in autocommit, so the status write stays pending. A later commit on that connection makes it durable. An example is a repeated approval, which then reads "Aprovado" as the current status, commits, and debits nothing. The model has no open transaction, so it does not promise that the balance plus approved days survive such a sequence.
- Ledger.UpdateStatus: for `Ledger.Simple`, the store reads the request through `conn.query`. That call caches its result with no expiry, under the same SQL text and parameters that `delete_ferias` uses. So after the first status change the store keeps seeing the stale status. The model reads the stored request, so it does not promise what a repeated change does on that store, such as a second approval debiting again.
- Ledger.Delete: for `Ledger.Simple`, the delete reads the request through the same cached `conn.query`. After an approval it may see the old "Pendente", remove the request and credit nothing. The model credits the approved days.
- Ledger.UpdateStatusConserves: holds for each call on the stored state. Across calls it does not cover the MySQL pending status write or the Simple cached read described above.
- Ledger.DeleteConserves: holds on the stored state. On `Ledger.Simple` a delete that follows a status change may read a cached status, and then the conservation fails.
- ErrorHandler.RetryOperation: the delay between attempts (`time.sleep`) is not modelled.
- ErrorHandler.ValidateAndExecute: the case of a validation result that is not a dictionary, or whose "erro" is not text, is not modelled.
- `Validadores.validar_email` in `code_standards.py` uses the same pattern as `validators.validar_email` and is not repeated.
- The `Formatadores` date and balance formatters in `code_standards.py` duplicate the formatters module, and only `formatar_periodo_ferias` is modelled separately.
- SqlSecurity.ValidateInputAsWritten: of the seven danger patterns, the two 1=1 tautologies and `UNION\s+SELECT` are spelled out. A text that any of the other four matches has already failed the keyword test. Three of them contain `--` or `/*`. The fourth, `;\s*(DROP|DELETE|TRUNCATE|ALTER|CREATE)`, has no i, k or s, the only letters `re.IGNORECASE` folds from non-ASCII characters, so its match upper-cases to a listed keyword.
- HtmlSecurity.SanitizeHtml: the four `<tag>…</tag>` patterns are not spelled out. Each needs a '<', which escaped text never contains, so they delete nothing.
- `sanitize_dict` and `sanitize_list` are left out.
- `obter_informacoes_saldo`, `obter_historico_ferias`, `excluir_ferias` and `obter_usuarios_para_selecao` of the leave service are left out. They repackage reads already modelled (`Usuarios.View`, the rules) or forward to `Ledger.Delete`.
- The 29 February anniversary in a common year is the `Failure` of `Calculos.NextAnniversary` rather than a precondition.

## Findings

| source | as written | input that shows it | evidently intended | confidence | as-written member | corrected member |
|---|---|---|---|---|---|---|
| src/database/__init__.py:147-157 | Editing an approved request that stays approved overwrites `dias_utilizados` and delegates only the status change, which moves no balance | An "Aprovada" request of 5 days re-dated to 3 business days: the balance keeps the 5-day debit while the request holds 3 | The balance is adjusted by the change in days, as tests/test_ferias_operations.py:75-83 expects | not executed | Ledger.EditAsWritten, Ledger.EditAsWrittenKeepsStaleDebit | Ledger.Edit, Ledger.EditConserves |
| src/database/sql_security.py:11-15 | The keywords "xp_" and "sp_" are listed in lower case and looked for in the upper-cased input, so they can never match | "xp_cmdshell" passes `validate_input` | Every listed keyword is matched regardless of case | not executed | SqlSecurity.ExtendedProcedureAccepted, SqlSecurity.LowerCaseKeywordsNeverMatch, SqlSecurity.WhereAcceptsExtendedProcedure | SqlSecurity.ValidateInput, SqlSecurity.ExtendedProcedureRefused, SqlSecurity.KeywordRefused |
| src/database/sql_security.py:56-78 | Quotes are doubled before the cut to 1000 characters, so the cut can separate a doubled quote | 999 × "a" followed by one quote: the result ends in a single unpaired quote | The cut never splits a doubled quote, so the result stays a well-formed literal | not executed | SqlSecurity.SanitizeStringAsWritten, SqlSecurity.CutSplitsQuotePair | SqlSecurity.SanitizeString |
