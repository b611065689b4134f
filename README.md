# SoSoValue bot core in Dafny

This project models three core parts of a referral and daily-task bot, and proves properties of the model.

- **The account store** (`AccountManager` in account_manager.py) is a SQLite database with two tables:
  - `accounts`: one row per signed-up address, with `email` UNIQUE;
  - `task_history`: an append-only log of completed tasks.

  The model is a class whose fields are the two tables as sequences in rowid order, plus their AUTOINCREMENT counters. It covers:
  - the mutators: insert-or-replace, point accrual, history append and cascading delete;
  - the read-only queries and the statistics aggregate.

  Every mutator keeps the table invariant (`Valid`), which says:
  - emails are unique;
  - ids are distinct, positive and never above the counter.
- **The address generator** (mail_generator.py) covers:
  - Gmail "dot trick" variations of one real mailbox;
  - the throwaway-address fallback;
  - `getmails`;
  - the acceptance test for the six-digit verification code typed at the prompt.
- **The task runner** (task_bot.py) covers:
  - the XP table, which is the defaults overlaid with configuration;
  - the seven `complete_*` lookups;
  - the `complete_all_tasks` loop, which runs the tasks in a fixed order and adds up the XP.

How the code is split:
- basics.dfy has `Option`/`Result`, filtering, counting, sums and a stable descending insertion sort (`ORDER BY ... DESC`).
- account_manager.dfy, mail_generator.dfy and task_bot.dfy follow the three source files.

The inputs that behave non-deterministically become parameters of the model:
- the current time is an integer number of seconds;
- the random draws come with preconditions that say which values `random` can produce;
- the site's login verdict is a function of the email and the password;
- how each task's iteration ended (normally, raising inside the task, or raising in the delay before or after it) is an input;
- the lines typed at the verification prompt are a sequence.

Two points about the code that the model makes explicit:
- `INSERT OR REPLACE` deletes the row that held the email and inserts a new one, so re-inserting an email gives the row a new `id` and `created_at`, and every column the statement does not list goes back to its default.
- `add_account` returns False on any exception. In this model the only exception is a NOT NULL violation.

## Model

| member | source | states |
|---|---|---|
| AccountManager.AccountManager.Open | account_manager.py:18-60 | Initialising the schema creates missing tables empty and never changes existing ones, so the store holds exactly the file's tables and counters, and they satisfy the invariant. |
| AccountManager.AccountManager.AddAccount | account_manager.py:62-84 | Returns True exactly when email, password and referral code are all present. On True, the table is the REPLACE of the old one by a row with the next id, the supplied values, `created_at` = now, points 0, `last_task_run` NULL, status 'active' and notes NULL; that row is what a lookup of the email returns. On False, nothing changes. History is never touched and uniqueness is kept. |
| AccountManager.NewRow | account_manager.py:69-73 | Defines the row the INSERT writes: the listed columns as supplied, the given id and `created_at` = now, and every other column at its schema default (points 0, `last_task_run` NULL, status 'active', notes NULL). |
| AccountManager.Upsert | account_manager.py:69-73 | Defines REPLACE resolution on the table: every row holding the new row's email is removed, and the new row is appended in rowid order. |
| AccountManager.UpsertEffect | account_manager.py:69-77 | After an insert-or-replace, emails are still unique and ids are bounded by the advanced counter. Exactly one row (the last) carries the email, and it is the new row. A lookup of any other email gives what it gave before. |
| AccountManager.UpsertTwiceLastWins | account_manager.py:69-77 | Inserting the same email twice leaves the second row and no trace of the first one: the whole row is replaced, not merged. |
| AccountManager.Lookup | account_manager.py:86-94 | The first row with the email: it is in the table and has that email. None exactly when no row has the email. |
| AccountManager.AccountManager.GetAccountByEmail | account_manager.py:86-94 | The row returned is in the table and has the email; None exactly when no row has it. |
| AccountManager.AccountManager.GetAllAccounts | account_manager.py:96-100 | A permutation of all rows (same multiset) in non-increasing `created_at` order. |
| AccountManager.AccountManager.GetVerifiedAccounts | account_manager.py:102-106 | A row is in the result if and only if it is in the table, verified and has status 'active'; each such row appears exactly as often as in the table, and no other row appears. |
| AccountManager.AccountManager.GetPendingAccounts | account_manager.py:108-112 | A row is in the result if and only if it is in the table and not verified; each such row appears exactly as often as in the table, and no other row appears. |
| AccountManager.AccountManager.UpdateAccountPoints | account_manager.py:114-125 | The table becomes the accrual of its old contents: the row with the email gains the points and `last_task_run` = now. With no such row nothing changes and nothing is raised. History and counters are unchanged and the invariant is kept. |
| AccountManager.Credit | account_manager.py:118-122 | Defines the UPDATE on one row: a row with the email gets `points + delta` and `last_task_run` = now; any other row is unchanged. |
| AccountManager.Accrue | account_manager.py:118-122 | Defines the UPDATE on the table as `Credit` applied to every row in place; the table keeps its length. |
| AccountManager.AccrueEffect | account_manager.py:114-125 | Accrual keeps uniqueness and ids. The row with the email reads back with points + delta and `last_task_run` = now. Every other email's row reads back as before. With no such row the table is unchanged. |
| AccountManager.AccrueTwice | account_manager.py:114-125 | Crediting 10 and then 5 points adds 15 to the account, and `last_task_run` is the second call's time. |
| AccountManager.AccountManager.RecordTaskCompletion | account_manager.py:127-136 | With both email and task type present: exactly one entry is appended, with the next history id, the supplied values, `completed_at` = now and the stored details, whether or not the account exists. A missing email or task type raises and changes nothing. Accounts are never touched. |
| AccountManager.StoredDetails | account_manager.py:134 | Details are stored as NULL exactly when they are absent or an empty dictionary; otherwise they are stored unchanged. |
| AccountManager.AccountManager.GetAccountsNeedingTasks | account_manager.py:138-152 | A row is in the result if and only if it is verified, active, and either never ran or ran strictly before now minus the window. With a negative window only never-run rows qualify. Each qualifying row appears exactly as often as in the table, and no other row appears. The result is a subset of get_verified_accounts. |
| AccountManager.Cutoff | account_manager.py:142-150 | Defines `datetime('now', '-N hours')` as now − N·3600 for N ≥ 0. For a negative N the parameter reads `--N hours`, which is not a number followed by a unit in SQLite's modifier grammar, so the cut-off is NULL. This follows the modifier grammar; it is a reading, not a run. |
| AccountManager.NeedsTasks | account_manager.py:142-150 | Defines the WHERE clause: verified, status 'active', and `last_task_run` NULL or strictly before the cut-off, where a comparison with a NULL cut-off is never true. |
| AccountManager.CreditedDueAgain | account_manager.py:114-152 | An account credited at time t by update_account_points is due again if and only if it is verified and active and t lies strictly before now minus the window; at the moment of crediting it is never due. |
| AccountManager.NeedsTasksMonotone | account_manager.py:138-152 | An account due with a window is due with every shorter non-negative window and stays due at every later time; with a negative window exactly the verified, active, never-run accounts are due. |
| AccountManager.DueWindowExamples | account_manager.py:138-152 | With the default 20-hour window, a verified active account that last ran 10 or exactly 20 hours ago is not due. One that ran 21 hours ago, or never ran, is due. |
| AccountManager.Groups | account_manager.py:170-175 | GROUP BY referral_code gives one group per code used. Each count is the number of rows with that code and is at least 1, codes are distinct, and the counts add up to the table's size. |
| AccountManager.HistogramFacts | account_manager.py:170-182 | The ordered groups keep all of the above properties and are in non-increasing count order. |
| AccountManager.CopyGroups | account_manager.py:177-182 | The append loop copies the fetched groups exactly, in order. |
| AccountManager.Histogram | account_manager.py:170-182 | Defines the grouped rows as `Groups` (first-appearance order) stably sorted by count, largest first. |
| AccountManager.VerificationRate | account_manager.py:185 | Defines the rate as verified / total × 100 when total > 0, and 0 otherwise. |
| AccountManager.VerificationRateRange | account_manager.py:185 | The rate is 0 for an empty table. Otherwise rate × total = verified × 100. It always lies in [0, 100]. |
| AccountManager.StatsFacts | account_manager.py:154-194 | The verified and pending counts add up to the total, and verified is the number of verified rows. Total points is the sum of points, 0 for an empty table. The rate is the verified percentage, 0 when the table is empty. referral_stats has distinct codes in non-increasing count order; the counts add up to the total and each one is its code's row count. |
| AccountManager.StatsOf | account_manager.py:154-194 | Defines the six figures get_stats returns: the row count, the verified and unverified counts, the points sum (0 for an empty table), the rate and the histogram. |
| AccountManager.AccountManager.GetStats | account_manager.py:154-194 | The result equals `StatsOf` of the accounts table; StatsFacts proves what that value satisfies. This covers the NULL sum turned into 0 and the guarded rate. The equality also fixes the order of groups with equal counts, which SQLite leaves open (see "## Left out"). |
| AccountManager.AccountManager.ExportToCsv | account_manager.py:196-209 | The rows written are a permutation of the table in non-increasing `created_at` order. The header is the column list when the table is non-empty; nothing is written for an empty table. |
| AccountManager.AccountManager.ExportToJson | account_manager.py:211-224 | The export carries its time stamp and the rows of get_all_accounts (a permutation, newest first), and `total_accounts` equals their number. |
| AccountManager.AccountManager.DeleteAccount | account_manager.py:226-232 | Afterwards no account row and no history row has the email. Every other row stays, in order. Counters are unchanged and the invariant is kept. |
| AccountManager.DeleteAccounts | account_manager.py:229 | Defines `DELETE FROM accounts WHERE email = ?` as the table without the rows holding the email, the rest in order. |
| AccountManager.DeleteHistory | account_manager.py:230 | Defines `DELETE FROM task_history WHERE email = ?` in the same way on the log. |
| AccountManager.DeleteEffect | account_manager.py:226-232 | Deleting leaves no lookup hit and no history row for the email. Every other history row stays, and lookups of other emails are unaffected. |
| AccountManager.FilterKeepsAccounts | account_manager.py:30-43 | Removing rows keeps emails unique and ids distinct and bounded. |
| MailGenerator.Contains | mail_generator.py:25 | `t in s` is true if and only if t occurs in s at some position. |
| MailGenerator.LocalPart | mail_generator.py:30 | `split("@")[0]` is a prefix of s that holds no '@'. It is either all of s or is followed by '@'. |
| MailGenerator.GenerateGmailVariation | mail_generator.py:15-57 | The result equals `GmailVariation` for the given draws. The temporary fallback is used when the base is empty or lacks "@gmail.com". The empty-range error is raised for a local part of at most one character. Otherwise the local part comes back with the sampled dots, followed by "@gmail.com". |
| MailGenerator.GmailVariation | mail_generator.py:15-57 | Defines the generator's result for a draw: the temporary address when the base is empty or lacks "@gmail.com", the empty-range error when the local part has at most one character, and otherwise the dotted variation. |
| MailGenerator.DotsVariation | mail_generator.py:45-54 | Defines the variation as the local part with a '.' in front of each sampled original position, followed by "@gmail.com". |
| MailGenerator.InsertDots | mail_generator.py:46-50 | Inserting dots at strictly decreasing positions in [1, n) gives the local part with a dot before each of those original positions: each insertion refers to the original string. |
| MailGenerator.InsertDot | mail_generator.py:49-50 | One `insert(pos, '.')` below every position used so far adds exactly that position to the set of dotted positions. |
| MailGenerator.SortedSample | mail_generator.py:45-46 | The sample sorted in reverse is strictly decreasing, stays within [1, n) and has the sample's elements. |
| MailGenerator.VariationRoundTrip | mail_generator.py:30-54 | The variation is its local part followed by "@gmail.com". Removing the inserted dots gives back the base's local part. The variation reaches the same dot-insensitive mailbox and is exactly one character longer per dot. Its first and last characters are the original ones. |
| MailGenerator.VariationSameMailbox | mail_generator.py:25-54 | For every valid draw, a base with "@gmail.com" and a local part of at least two characters yields an address with the same local part up to dots, longer by exactly the drawn number of dots (1 to min(3, n − 1)). |
| MailGenerator.UndottedDotted | mail_generator.py:49-50 | Dropping the characters put in front of the chosen positions undoes the insertion. |
| MailGenerator.StripDotsDotted | mail_generator.py:49-50 | Inserting dots does not change the text once all dots are removed. |
| MailGenerator.VariationFails | mail_generator.py:25-33 | The generator raises exactly when the base mentions "@gmail.com" but its local part is at most one character long, whatever the draw. |
| MailGenerator.TempEmailShape | mail_generator.py:59-79 | A temporary address is an adjective and a noun from the lists, then three digits, then '@' and one of the five listed domains. |
| MailGenerator.TempEmail | mail_generator.py:59-79 | Defines the temporary address of a draw: the chosen adjective, noun and three digits, '@', and the chosen domain. |
| MailGenerator.MailForFails | mail_generator.py:101-105 | One iteration of getmails fails exactly when the base is unusable; an empty base always gives a temporary address. |
| MailGenerator.MakeAddress | mail_generator.py:102-105 | The loop body uses the Gmail generator when a base is configured and the temporary generator otherwise. |
| MailGenerator.MailFor | mail_generator.py:101-105 | Defines one iteration's address: the Gmail generator's result when a base is configured, the temporary address otherwise. |
| MailGenerator.Addresses | mail_generator.py:100-110 | Defines the addresses made from a list of draws in turn, the first error aborting the rest. |
| MailGenerator.GetMails | mail_generator.py:81-110 | Returns the addresses made from the first `count` draws (none for a count of 0 or less); the first error aborts the call. A count of 1 returns the single address and any other count returns the list. |
| MailGenerator.GetMailsOutcome | mail_generator.py:100-110 | The call fails exactly when the count is positive and the base is unusable. Otherwise it makes exactly `count` addresses, the i-th being what the i-th draw gives. |
| MailGenerator.AddressesFail | mail_generator.py:100-106 | Making addresses fails exactly when there is at least one to make and the base is unusable. |
| MailGenerator.AddressesEach | mail_generator.py:100-106 | A successful run makes one address per draw, each the generator's result for its draw. |
| MailGenerator.FailureAborts | mail_generator.py:101-106 | The first iteration that raises decides the outcome of the whole call. |
| MailGenerator.StripFacts | mail_generator.py:151 | `strip()` returns a slice of the input outside which everything is whitespace, and it neither begins nor ends with whitespace. |
| MailGenerator.Strip | mail_generator.py:151 | Defines `str.strip()` as removing the leading and then the trailing ASCII whitespace. |
| MailGenerator.ClassifyEntry | mail_generator.py:153-161 | A line is "skip" exactly when it lowercases to "skip". It is accepted exactly when it has six characters, all digits, and the accepted code is the line itself. |
| MailGenerator.Lower | mail_generator.py:153 | Defines `str.lower()` on ASCII: each letter A-Z maps to a-z and every other character stays; the length is kept. |
| MailGenerator.FirstDecision | mail_generator.py:150-161 | Defines the prompt loop's answer over the lines typed: None at "skip", the code at the first six-digit line, the next line after any other line, and None when input ends. |
| MailGenerator.DecisiveLine | mail_generator.py:150-161 | Every line before the decisive one is rejected; the decisive line, if there is one, is not. |
| MailGenerator.FirstDecisionAtDecisiveLine | mail_generator.py:150-161 | The prompt's answer is the decisive line's code when that line is a code, and None when it is "skip" or the input runs out. |
| MailGenerator.GetVerificationCode | mail_generator.py:112-168 | The prompt loop returns the first code or "skip" decision over the stripped lines, and None at the end of input. A returned code always has six characters, all digits. |
| MailGenerator.SkipInAnyCase | mail_generator.py:150-155 | "skip" typed in any mix of upper and lower case lowercases to "skip", is classified as skip, and makes the prompt return None at once, whatever lines follow. |
| TaskBot.LoadTaskXp | task_bot.py:33-53 | The table holds the seven keys of `DefaultXp` (the defaults at task_bot.py:35-43) plus every configured key. A configured value overrides the default, and a missing configuration leaves exactly the defaults. |
| TaskBot.LoadedTableHasEveryTask | task_bot.py:35-53 | Every task's key is in the loaded table, whatever the configuration. |
| TaskBot.FallbackIsDefault | task_bot.py:35-43 | Each complete_* method's hard-coded fallback equals that task's default XP. |
| TaskBot.TaskBot.constructor | task_bot.py:31 | The bot's XP table is the one `_load_task_xp` builds. |
| TaskBot.TaskBot.Complete | task_bot.py:103-222 | A task that does not raise returns (True, its table value, or the fallback when the key is absent). One that raises returns (False, 0). |
| TaskBot.TaskValue | task_bot.py:103-222 | Defines the pair a `complete_*` method returns: (False, 0) when it raises inside, otherwise (True, the table's value for the task's key, or its hard-coded fallback when the key is absent). |
| TaskBot.TaskOrderIsComplete | task_bot.py:245-253 | The run order visits each of the seven tasks exactly once. |
| TaskBot.StepFacts | task_bot.py:264-287 | One iteration records the task's name. Unless the delay after the task raises, the XP it adds to the total is the XP its entry reports. A failing task adds nothing. With non-negative values, an iteration adds a positive amount exactly when the task completes and is worth XP. |
| TaskBot.StepResult | task_bot.py:258-287 | Defines the entry one iteration records under the task's name: the error when an exception escapes a delay before or after the task, otherwise the task's success and XP. |
| TaskBot.StepXp | task_bot.py:258-275 | Defines what one iteration adds to `total_xp`: the task's XP when it reports success, even if the delay after it then raises; 0 when it fails or the delay before it raises. |
| TaskBot.Tally | task_bot.py:255-287 | Defines the running total and entries after the first n tasks of the run order, one iteration at a time. |
| TaskBot.TallyNames | task_bot.py:255-287 | The loop records exactly one entry per task, named after it, in the order checkin, video, article, share, like, follow, profile. |
| TaskBot.TallyTotal | task_bot.py:264-287 | The total is the sum of the XP of the entries that report success. |
| TaskBot.AllFailNothingEarned | task_bot.py:264-287 | When every task fails, the total is 0. |
| TaskBot.AllFailedIsNoSuccess | task_bot.py:291-297 | When every task fails, the report is not a success. |
| TaskBot.TallyNonNegative | task_bot.py:255-297 | With non-negative XP values the total is never negative. It is positive, and so the report a success, exactly when some task runs without raising and is worth XP. |
| TaskBot.DefaultRunEarns31 | task_bot.py:35-43 | With the default table and every task completing, a run earns 10 + 5 + 3 + 5 + 1 + 3 + 4 = 31 XP. |
| TaskBot.TaskBot.RunTasks | task_bot.py:255-287 | The loop's total and entries are `Tally` over the seven tasks. A task that raises before running contributes an error entry and no XP. An exception in the delay after a task replaces its entry by the error, but its XP has already been added. |
| TaskBot.TaskBot.CompleteAllTasks | task_bot.py:224-297 | Without a password and with an unknown account, the result is the "Account not found" error. If the login is refused, the result is "Login failed". Either error comes before any task runs. Otherwise the report carries the loop's total and entries, and success is total > 0. |

## Left out

- The SQLite engine is not modelled. This covers connections, commits and `close()` (account_manager.py:234-236), the text form of timestamps and `CURRENT_TIMESTAMP`. get_verified_accounts writes `status = "active"` in double quotes (account_manager.py:105); the model reads it as the string 'active', which is what SQLite does only through its double-quoted-string fallback, because no column has that name. With that fallback turned off, the query raises "no such column". Times are integer seconds passed in as `now`.
- AccountManager.AccountManager.UpdateAccountPoints: points are unbounded integers. SQLite's INTEGER is 64-bit, and `points + ?` beyond that range is stored as a REAL; that conversion is not modelled.
- AccountManager.AccountManager.GetStats: `SUM(points)` raises "integer overflow" in SQLite once the sum leaves the 64-bit range; the model's sum is unbounded and never raises.
- AccountManager.AccountManager.AddAccount: AUTOINCREMENT fails once the largest 64-bit id has been used; the model's counter is unbounded, so an insert never fails for that reason.
- Storage failures other than NOT NULL (a locked or corrupt database, a full disk) are not modelled.
- A NULL `verified` value is not modelled. Callers always pass a boolean, so `verified` is a `bool`.
- The order of rows with equal `created_at` under `ORDER BY created_at DESC` is unspecified. The contracts of GetAllAccounts, ExportToJson and ExportToCsv state only non-increasing order and being a permutation.
- AccountManager.AccountManager.GetStats: its result equals `StatsOf`, and `Histogram` fixes the order of groups with equal counts to the order in which their codes first appear in the table. SQLite leaves that order unspecified. StatsFacts and HistogramFacts state only what holds for any tie order: non-increasing counts, distinct codes, the codes present in the table, and each count equal to its code's row count.
- AccountManager.VerificationRate: the rate is an exact real percentage, and the floating-point rounding of the division is not modelled.
- The `details` dictionary is kept as a map. Its `json.dumps` text is not modelled.
- File writing in export_to_csv and export_to_json is not modelled (directories, the csv and json libraries, the ISO rendering of the export time). Only the rows selected and the header are modelled.
- Random draws (`randint`, `sample`, `choice`, `choices`) are parameters. Their preconditions state the values each draw can produce.
- MailGenerator.GenerateGmailVariation: the clamp of the dot count (mail_generator.py:42-43) never fires, because the count is already at most len(local) − 1. It is kept in the method, where an assertion proves that it leaves the count equal to the sample's length.
- Reading `config.json` is a parameter. For getmails it is the `base_gmail` string, "" when absent or unreadable. For the XP table it is an optional map.
- Non-integer configured XP values and a `task_settings` entry that is not a dictionary are not modelled.
- Python's `str.strip`, `str.lower` and `str.isdigit` are modelled on ASCII only. Other Unicode whitespace, letters and digits are not covered.
- The console output of get_verification_code and its `email` argument, which only affects what is printed, are not modelled. KeyboardInterrupt and other exceptions raised at the prompt are modelled as the end of the input lines, which also yields None.
- generate_multiple_variations (mail_generator.py:170-176) and the `__main__` demonstration in mail_generator.py are not modelled.
- `TaskBot.login` is network I/O and is a parameter returning the verdict. The HTTP session and the `time.sleep` calls (inside each `complete_*` method and around each task) are not modelled. Only where an exception is raised matters.
- The timestamps in each task result and the log messages are not modelled. `results` is a sequence in run order rather than a dict keyed by task name; the names are distinct, so no information is lost.
- TaskBot.TallyTotal: holds only when no exception escapes the delay after a task. Such a task's XP stays in `total_xp` while its entry reports an error. RunTasks models that case exactly.
- TaskBot.TaskBot.CompleteAllTasks: it requires that the last task's iteration does not raise in a delay after it, because the source sleeps only between tasks (task_bot.py:278-280).
- referral_bot.py, main.py and `quick_tasks` (task_bot.py:300) are not part of this model: they are HTTP clients, menus and file handling around the core.
