/** The account store: an `accounts` table keyed uniquely by email and an
    append-only `task_history` log, with the queries the bot runs over them.
    Timestamps are whole seconds; the current time is a parameter. */
module AccountManager {
  import opened Basics

  // Column defaults of the `accounts` schema.
  const DefaultPoints := 0
  const DefaultStatus := "active"

  /** Default window of get_accounts_needing_tasks, in hours. */
  const DefaultHoursSince := 20
  const SecondsPerHour := 3600

  /** Column order of `accounts`, which is the CSV header. */
  const AccountColumns: seq<string> := ["id", "email", "password", "referral_code", "created_at",
    "verified", "verification_code", "points", "last_task_run", "status", "cookies", "notes"]

  /** One row of `accounts`. */
  datatype Account = Account(
    id: int,
    email: string,
    password: string,
    referralCode: string,
    createdAt: int,
    verified: bool,
    verificationCode: Option<string>,
    points: int,
    lastTaskRun: Option<int>,
    status: string,
    cookies: Option<string>,
    notes: Option<string>)

  /** The `details` blob of a history row: a string-keyed dictionary (its JSON text is not modelled). */
  type Details = map<string, string>

  /** One row of `task_history`. */
  datatype TaskEntry = TaskEntry(
    id: int,
    email: string,
    taskType: string,
    xpEarned: Option<int>,
    completedAt: int,
    details: Option<Details>)

  /** The contents of a database file: both tables and their AUTOINCREMENT counters. */
  datatype Tables = Tables(accounts: seq<Account>, history: seq<TaskEntry>, accountSeq: int, historySeq: int)

  function AccountId(a: Account): int { a.id }
  function EntryId(h: TaskEntry): int { h.id }
  function CreatedAt(a: Account): int { a.createdAt }
  function Points(a: Account): int { a.points }

  predicate IsVerified(a: Account) { a.verified }
  predicate IsPending(a: Account) { !a.verified }
  predicate IsVerifiedActive(a: Account) { a.verified && a.status == DefaultStatus }

  function EmailOf(a: Account): string { a.email }

  /** The UNIQUE constraint on accounts.email. */
  predicate UniqueEmails(rows: seq<Account>)
  {
    DistinctBy(rows, EmailOf)
  }

  /** Row ids are distinct, positive and never above the table's AUTOINCREMENT counter. */
  predicate IdsBelow<T>(rows: seq<T>, id: T -> int, counter: int)
  {
    && 0 <= counter && DistinctBy(rows, id)
    && forall i :: 0 <= i < |rows| ==> 0 < id(rows[i]) <= counter
  }

  predicate AccountsOk(rows: seq<Account>, counter: int)
  {
    UniqueEmails(rows) && IdsBelow(rows, AccountId, counter)
  }

  predicate TablesOk(t: Tables)
  {
    AccountsOk(t.accounts, t.accountSeq) && IdsBelow(t.history, EntryId, t.historySeq)
  }

  /** SELECT * FROM accounts WHERE email = ?: the first row with that email. */
  function Lookup(rows: seq<Account>, email: string): (r: Option<Account>)
    ensures r.Some? ==> r.value in rows && r.value.email == email
    ensures r.None? <==> forall i :: 0 <= i < |rows| ==> rows[i].email != email
  {
    if rows == [] then None
    else if rows[0].email == email then Some(rows[0])
    else Lookup(rows[1..], email)
  }

  /** The row `INSERT OR REPLACE ... (email, password, referral_code, verified,
      verification_code, cookies)` writes: the listed columns as supplied, every
      other column at its schema default, a fresh id and the current time. */
  function NewRow(id: int, email: string, password: string, referralCode: string, verified: bool,
                  verificationCode: Option<string>, cookies: Option<string>, now: int): Account
  {
    Account(id, email, password, referralCode, now, verified, verificationCode,
            DefaultPoints, None, DefaultStatus, cookies, None)
  }

  /** REPLACE resolution: the row holding the same email is deleted, then the new row is inserted. */
  function Upsert(rows: seq<Account>, row: Account): seq<Account>
  {
    Filter(rows, (a: Account) => a.email != row.email) + [row]
  }

  /** The row update of update_account_points applied to one row. */
  function Credit(a: Account, email: string, delta: int, now: int): Account
  {
    if a.email == email then a.(points := a.points + delta, lastTaskRun := Some(now)) else a
  }

  /** UPDATE accounts SET points = points + delta, last_task_run = now WHERE email = ?. */
  function Accrue(rows: seq<Account>, email: string, delta: int, now: int): (r: seq<Account>)
    ensures |r| == |rows|
  {
    if rows == [] then [] else [Credit(rows[0], email, delta, now)] + Accrue(rows[1..], email, delta, now)
  }

  function DeleteAccounts(rows: seq<Account>, email: string): seq<Account>
  {
    Filter(rows, (a: Account) => a.email != email)
  }

  function DeleteHistory(history: seq<TaskEntry>, email: string): seq<TaskEntry>
  {
    Filter(history, (h: TaskEntry) => h.email != email)
  }

  /** What `json.dumps(details) if details else None` stores: falsy details become NULL. */
  function StoredDetails(details: Option<Details>): (r: Option<Details>)
    ensures r.None? <==> details.None? || details.value == map[]
    ensures r.Some? ==> r == details
  {
    if details.Some? && details.value != map[] then details else None
  }

  /** datetime('now', '-N hours'). A negative N spells the modifier '--N hours',
      which SQLite rejects, so the cut-off is NULL. */
  function Cutoff(now: int, hoursSince: int): Option<int>
  {
    if hoursSince >= 0 then Some(now - hoursSince * SecondsPerHour) else None
  }

  /** The WHERE clause of get_accounts_needing_tasks; a comparison with a NULL cut-off is never true. */
  predicate NeedsTasks(a: Account, now: int, hoursSince: int)
  {
    var cutoff := Cutoff(now, hoursSince);
    && a.verified && a.status == DefaultStatus
    && (a.lastTaskRun.None? || (cutoff.Some? && a.lastTaskRun.value < cutoff.value))
  }

  // ---------------------------------------------------------------------------
  // Properties of the row-level operations

  /** Filtering a table keeps its constraints. */
  lemma FilterKeepsAccounts(rows: seq<Account>, p: Account -> bool, counter: int)
    requires AccountsOk(rows, counter)
    ensures AccountsOk(Filter(rows, p), counter)
  {
    FilterDistinct(rows, p, EmailOf);
    FilterDistinct(rows, p, AccountId);
    FilterBounded(rows, p, AccountId, 0, counter);
  }

  lemma FilterKeepsEntries(history: seq<TaskEntry>, p: TaskEntry -> bool, counter: int)
    requires IdsBelow(history, EntryId, counter)
    ensures IdsBelow(Filter(history, p), EntryId, counter)
  {
    FilterDistinct(history, p, EntryId);
    FilterBounded(history, p, EntryId, 0, counter);
  }

  /** Lookup after a filter that keeps every row carrying the email. */
  lemma {:induction false} LookupFilter(rows: seq<Account>, p: Account -> bool, email: string)
    requires forall a: Account :: a.email == email ==> p(a)
    ensures Lookup(Filter(rows, p), email) == Lookup(rows, email)
  {
    if rows != [] { LookupFilter(rows[1..], p, email); }
  }

  /** Appending a row whose id is the next counter value keeps the ids distinct and bounded. */
  lemma IdsBelowAppend<T>(rows: seq<T>, x: T, id: T -> int, counter: int)
    requires IdsBelow(rows, id, counter) && id(x) == counter + 1
    ensures IdsBelow(rows + [x], id, counter + 1)
  {
    var r := rows + [x];
    forall i, j | 0 <= i < j < |r| ensures id(r[i]) != id(r[j]) {
      if j == |rows| { assert id(r[i]) <= counter; }
    }
    forall i | 0 <= i < |r| ensures 0 < id(r[i]) <= counter + 1 {
      if i < |rows| { assert r[i] == rows[i]; }
    }
  }

  lemma {:induction false} LookupAppendMiss(rows: seq<Account>, row: Account, email: string)
    requires row.email != email
    ensures Lookup(rows + [row], email) == Lookup(rows, email)
  {
    if rows != [] {
      assert (rows + [row])[1..] == rows[1..] + [row];
      LookupAppendMiss(rows[1..], row, email);
    }
  }

  /** add_account: afterwards exactly one row carries the email, the new one, and it
      reads back with the supplied values; lookups of every other email are unaffected;
      the table constraints still hold with the counter advanced by one. */
  lemma UpsertEffect(rows: seq<Account>, counter: int, row: Account, other: string)
    requires AccountsOk(rows, counter)
    requires row.id == counter + 1
    ensures AccountsOk(Upsert(rows, row), counter + 1)
    ensures Lookup(Upsert(rows, row), row.email) == Some(row)
    ensures forall i :: 0 <= i < |Upsert(rows, row)| && Upsert(rows, row)[i].email == row.email ==>
              i == |Upsert(rows, row)| - 1
    ensures other != row.email ==> Lookup(Upsert(rows, row), other) == Lookup(rows, other)
  {
    var p := (a: Account) => a.email != row.email;
    var kept := Filter(rows, p);
    assert Upsert(rows, row) == kept + [row];
    UpsertKeepsTable(rows, counter, row, kept);
    LookupLast(kept, row);
    if other != row.email {
      LookupAppendMiss(kept, row, other);
      LookupFilter(rows, p, other);
    }
  }

  /** The rows left after removing an email, plus a row with that email and the next id. */
  lemma UpsertKeepsTable(rows: seq<Account>, counter: int, row: Account, kept: seq<Account>)
    requires AccountsOk(rows, counter) && row.id == counter + 1
    requires kept == Filter(rows, (a: Account) => a.email != row.email)
    ensures AccountsOk(kept + [row], counter + 1)
    ensures forall k :: 0 <= k < |kept| ==> kept[k].email != row.email
    ensures forall i :: 0 <= i < |kept + [row]| && (kept + [row])[i].email == row.email ==> i == |kept|
  {
    FilterKeepsAccounts(rows, (a: Account) => a.email != row.email, counter);
    assert forall k :: 0 <= k < |kept| ==> EmailOf(kept[k]) != EmailOf(row);
    SnocDistinct(kept, row, EmailOf);
    OnlyLastHasEmail(kept, row);
    IdsBelowAppend(kept, row, AccountId, counter);
  }

  /** In a table with unique emails that ends in row, no other row has its email. */
  lemma OnlyLastHasEmail(kept: seq<Account>, row: Account)
    requires UniqueEmails(kept + [row])
    ensures forall i :: 0 <= i < |kept + [row]| && (kept + [row])[i].email == row.email ==> i == |kept|
  {
    var r := kept + [row];
    assert forall i :: 0 <= i < |kept| ==> EmailOf(r[i]) != EmailOf(r[|kept|]);
  }

  lemma {:induction false} LookupLast(rows: seq<Account>, row: Account)
    requires forall k :: 0 <= k < |rows| ==> rows[k].email != row.email
    ensures Lookup(rows + [row], row.email) == Some(row)
  {
    if rows != [] {
      assert (rows + [row])[1..] == rows[1..] + [row];
      LookupLast(rows[1..], row);
    }
  }

  /** Re-inserting an email replaces the whole row: nothing of the first insert survives. */
  lemma UpsertTwiceLastWins(rows: seq<Account>, counter: int, first: Account, second: Account)
    requires AccountsOk(rows, counter)
    requires first.id == counter + 1 && second.id == counter + 2 && first.email == second.email
    ensures Lookup(Upsert(Upsert(rows, first), second), second.email) == Some(second)
    ensures forall a :: a in Upsert(Upsert(rows, first), second) ==> a != first
  {
    UpsertEffect(rows, counter, first, second.email);
    UpsertEffect(Upsert(rows, first), counter + 1, second, second.email);
  }

  /** update_account_points on a unique table: the one row with the email gains delta
      points and last_task_run = now; every other row is untouched; with no such row
      the table is unchanged. */
  lemma AccrueEffect(rows: seq<Account>, counter: int, email: string, delta: int, now: int)
    requires AccountsOk(rows, counter)
    ensures AccountsOk(Accrue(rows, email, delta, now), counter)
    ensures Lookup(rows, email).None? ==> Accrue(rows, email, delta, now) == rows
    ensures Lookup(rows, email).Some? ==>
              var a := Lookup(rows, email).value;
              Lookup(Accrue(rows, email, delta, now), email) ==
                Some(a.(points := a.points + delta, lastTaskRun := Some(now)))
    ensures forall e :: e != email ==> Lookup(Accrue(rows, email, delta, now), e) == Lookup(rows, e)
  {
    AccrueLookup(rows, email, delta, now);
    AccrueKeepsKeys(rows, email, delta, now);
    forall e | e != email
      ensures Lookup(Accrue(rows, email, delta, now), e) == Lookup(rows, e)
    {
      AccrueOther(rows, email, delta, now, e);
    }
  }

  lemma {:induction false} AccrueLookup(rows: seq<Account>, email: string, delta: int, now: int)
    ensures Lookup(rows, email).None? ==> Accrue(rows, email, delta, now) == rows
    ensures Lookup(rows, email).Some? ==>
              Lookup(Accrue(rows, email, delta, now), email) ==
                Some(Credit(Lookup(rows, email).value, email, delta, now))
  {
    if rows != [] {
      AccrueLookup(rows[1..], email, delta, now);
    }
  }

  lemma {:induction false} AccrueOther(rows: seq<Account>, email: string, delta: int, now: int, e: string)
    requires e != email
    ensures Lookup(Accrue(rows, email, delta, now), e) == Lookup(rows, e)
  {
    if rows != [] {
      AccrueOther(rows[1..], email, delta, now, e);
    }
  }

  lemma {:induction false} AccrueKeepsKeys(rows: seq<Account>, email: string, delta: int, now: int)
    ensures forall i :: 0 <= i < |rows| ==>
              Accrue(rows, email, delta, now)[i].email == rows[i].email &&
              Accrue(rows, email, delta, now)[i].id == rows[i].id
  {
    if rows != [] {
      AccrueKeepsKeys(rows[1..], email, delta, now);
      assert forall i :: 1 <= i < |rows| ==> Accrue(rows, email, delta, now)[i] == Accrue(rows[1..], email, delta, now)[i - 1];
    }
  }

  /** Crediting 10 and then 5 points gives 15 more, with the second call's time. */
  lemma AccrueTwice(rows: seq<Account>, counter: int, email: string, t1: int, t2: int)
    requires AccountsOk(rows, counter) && Lookup(rows, email).Some?
    ensures var after := Accrue(Accrue(rows, email, 10, t1), email, 5, t2);
            Lookup(after, email).Some? &&
            Lookup(after, email).value.points == Lookup(rows, email).value.points + 15 &&
            Lookup(after, email).value.lastTaskRun == Some(t2)
  {
    AccrueEffect(rows, counter, email, 10, t1);
    AccrueEffect(Accrue(rows, email, 10, t1), counter, email, 5, t2);
  }

  /** delete_account: no row of either table keeps the email; every other row stays, in order. */
  lemma DeleteEffect(rows: seq<Account>, history: seq<TaskEntry>, email: string, other: string)
    ensures Lookup(DeleteAccounts(rows, email), email).None?
    ensures forall h :: h in DeleteHistory(history, email) ==> h.email != email
    ensures forall h :: h in history && h.email != email ==> h in DeleteHistory(history, email)
    ensures other != email ==> Lookup(DeleteAccounts(rows, email), other) == Lookup(rows, other)
  {
    var p := (a: Account) => a.email != email;
    if other != email { LookupFilter(rows, p, other); }
  }

  /** verification_rate: the verified share as a percentage, 0 for an empty table. */
  function VerificationRate(verified: nat, total: nat): real
    requires verified <= total
  {
    if total > 0 then (verified as real) / (total as real) * 100.0 else 0.0
  }

  /** The rate is 0 for an empty table, else the verified percentage, always within [0, 100]. */
  lemma VerificationRateRange(verified: nat, total: nat)
    requires verified <= total
    ensures total == 0 ==> VerificationRate(verified, total) == 0.0
    ensures total > 0 ==> VerificationRate(verified, total) * (total as real) == (verified as real) * 100.0
    ensures 0.0 <= VerificationRate(verified, total) <= 100.0
  {
    if total > 0 {
      var q := (verified as real) / (total as real);
      assert q * (total as real) == verified as real;
      assert 0.0 <= q <= 1.0;
    }
  }

  /** An account credited at time t by update_account_points is due again exactly when it
      is verified and active and t lies strictly before the window: never at the moment of
      crediting, whatever its earlier history. */
  lemma CreditedDueAgain(a: Account, delta: int, t: int, now: int, hoursSince: int)
    requires hoursSince >= 0
    ensures NeedsTasks(Credit(a, a.email, delta, t), now, hoursSince) <==>
              IsVerifiedActive(a) && t < now - hoursSince * SecondsPerHour
    ensures !NeedsTasks(Credit(a, a.email, delta, now), now, hoursSince)
  {
  }

  /** An account due with some window is due with every shorter one and stays due as time
      passes; a negative window leaves only never-run accounts. */
  lemma NeedsTasksMonotone(a: Account, now: int, later: int, shorter: int, hoursSince: int)
    requires 0 <= shorter <= hoursSince && now <= later
    ensures NeedsTasks(a, now, hoursSince) ==> NeedsTasks(a, now, shorter)
    ensures NeedsTasks(a, now, hoursSince) ==> NeedsTasks(a, later, hoursSince)
    ensures NeedsTasks(a, now, -1) <==> IsVerifiedActive(a) && a.lastTaskRun.None?
  {
  }

  /** With the default 20-hour window, a run 10 hours ago is recent, one 21 hours ago
      or none at all is due; the comparison is strict. */
  lemma DueWindowExamples(a: Account, now: int)
    requires IsVerifiedActive(a)
    ensures a.lastTaskRun == Some(now - 10 * SecondsPerHour) ==> !NeedsTasks(a, now, DefaultHoursSince)
    ensures a.lastTaskRun == Some(now - 21 * SecondsPerHour) ==> NeedsTasks(a, now, DefaultHoursSince)
    ensures a.lastTaskRun == Some(now - 20 * SecondsPerHour) ==> !NeedsTasks(a, now, DefaultHoursSince)
    ensures a.lastTaskRun.None? ==> NeedsTasks(a, now, DefaultHoursSince)
  {
  }

  // ---------------------------------------------------------------------------
  // The aggregate of get_stats

  /** One row of `SELECT referral_code, COUNT(*) ... GROUP BY referral_code`. */
  datatype ReferralCount = ReferralCount(code: string, count: int)

  function CodeOf(g: ReferralCount): string { g.code }
  function CountOf(g: ReferralCount): int { g.count }

  /** Number of accounts signed up with the code. */
  function CodeCount(rows: seq<Account>, code: string): nat
  {
    Count(rows, (a: Account) => a.referralCode == code)
  }

  /** Removing the rows of one code leaves the count of every other code alone. */
  lemma {:induction false} CodeCountWithout(rows: seq<Account>, gone: string, code: string)
    requires code != gone
    ensures CodeCount(Filter(rows, (a: Account) => a.referralCode != gone), code) == CodeCount(rows, code)
  {
    if rows != [] { CodeCountWithout(rows[1..], gone, code); }
  }

  /** The codes the accounts were signed up with. */
  function RowCodes(rows: seq<Account>): set<string>
  {
    if rows == [] then {} else {rows[0].referralCode} + RowCodes(rows[1..])
  }

  /** The codes named by a list of groups. */
  function GroupCodes(gs: seq<ReferralCount>): set<string>
  {
    if gs == [] then {} else {gs[0].code} + GroupCodes(gs[1..])
  }

  lemma {:induction false} RowCodesWithout(rows: seq<Account>, gone: string)
    ensures RowCodes(Filter(rows, (a: Account) => a.referralCode != gone)) == RowCodes(rows) - {gone}
  {
    if rows != [] { RowCodesWithout(rows[1..], gone); }
  }

  lemma {:induction false} GroupCodesMembers(gs: seq<ReferralCount>)
    ensures forall i :: 0 <= i < |gs| ==> gs[i].code in GroupCodes(gs)
  {
    if gs != [] {
      GroupCodesMembers(gs[1..]);
      assert forall i :: 1 <= i < |gs| ==> gs[i] == gs[1..][i - 1];
    }
  }

  lemma {:induction false} GroupCodesOfMembers(gs: seq<ReferralCount>, x: string)
    requires x in GroupCodes(gs)
    ensures exists g :: g in gs && g.code == x
  {
    if gs[0].code != x { GroupCodesOfMembers(gs[1..], x); }
  }

  /** GROUP BY referral_code: one group per distinct code, in order of first appearance,
      holding the number of rows with that code. */
  function Groups(rows: seq<Account>): (r: seq<ReferralCount>)
    ensures SumBy(r, CountOf) == |rows|
    ensures DistinctBy(r, CodeOf)
    ensures GroupCodes(r) == RowCodes(rows)
    ensures forall g :: g in r ==> g.count == CodeCount(rows, g.code) && g.count >= 1
    decreases |rows|
  {
    if rows == [] then []
    else
      var c := rows[0].referralCode;
      var same := (a: Account) => a.referralCode == c;
      var other := (a: Account) => a.referralCode != c;
      var rest := Filter(rows[1..], other);
      CountComplement(rows[1..], same, other);
      FilterCount(rows[1..], other);
      RowCodesWithout(rows[1..], c);
      var tail := Groups(rest);
      GroupsOfRest(rows, c, rest, tail);
      GroupsCons(rows, c, rest, tail);
      [ReferralCount(c, |rows| - |rest|)] + tail
  }

  /** The head's group in front of the groups of the other codes is a grouping of the table. */
  lemma GroupsCons(rows: seq<Account>, c: string, rest: seq<Account>, tail: seq<ReferralCount>)
    requires rows != [] && c == rows[0].referralCode
    requires rest == Filter(rows[1..], (a: Account) => a.referralCode != c)
    requires CodeCount(rows, c) == |rows| - |rest|
    requires SumBy(tail, CountOf) == |rest| && DistinctBy(tail, CodeOf)
    requires GroupCodes(tail) == RowCodes(rows[1..]) - {c}
    requires forall g :: g in tail ==> g.code != c && g.count == CodeCount(rows, g.code) && g.count >= 1
    ensures var r := [ReferralCount(c, |rows| - |rest|)] + tail;
            && SumBy(r, CountOf) == |rows|
            && DistinctBy(r, CodeOf)
            && GroupCodes(r) == RowCodes(rows)
            && forall g :: g in r ==> g.count == CodeCount(rows, g.code) && g.count >= 1
  {
    var head := ReferralCount(c, |rows| - |rest|);
    var r := [head] + tail;
    assert r[1..] == tail;
    assert forall k :: 0 <= k < |tail| ==> tail[k] in tail;
    ConsDistinct(head, tail, CodeOf);
    assert RowCodes(rows) == {c} + RowCodes(rows[1..]);
  }

  /** The step of Groups: the groups of the other codes miss the head's code and keep
      their counts in the whole table. */
  lemma GroupsOfRest(rows: seq<Account>, c: string, rest: seq<Account>, tail: seq<ReferralCount>)
    requires rows != [] && c == rows[0].referralCode
    requires rest == Filter(rows[1..], (a: Account) => a.referralCode != c)
    requires GroupCodes(tail) == RowCodes(rest) == RowCodes(rows[1..]) - {c}
    requires forall g :: g in tail ==> g.count == CodeCount(rest, g.code)
    ensures forall g :: g in tail ==> g.code != c && g.count == CodeCount(rows, g.code)
  {
    GroupCodesMembers(tail);
    forall g | g in tail
      ensures g.code != c && g.count == CodeCount(rows, g.code)
    {
      var i :| 0 <= i < |tail| && tail[i] == g;
      assert g.code in GroupCodes(tail);
      CodeCountWithout(rows[1..], c, g.code);
    }
  }

  /** referral_stats: the groups ordered by count, largest first (ties in any order). */
  function Histogram(rows: seq<Account>): seq<ReferralCount>
  {
    SortDesc(Groups(rows), CountOf)
  }

  /** referral_stats has one group per code used, largest first, each holding the
      number of rows with its code, the counts adding up to the table's size. */
  lemma HistogramFacts(rows: seq<Account>)
    ensures var r := Histogram(rows);
            && SumBy(r, CountOf) == |rows|
            && DistinctBy(r, CodeOf)
            && NonIncreasing(r, CountOf)
            && GroupCodes(r) == RowCodes(rows)
            && forall g :: g in r ==> g.count == CodeCount(rows, g.code) && g.count >= 1
  {
    var groups := Groups(rows);
    var sorted := SortDesc(groups, CountOf);
    SortDescSum(groups, CountOf, CountOf);
    SortDescDistinct(groups, CountOf, CodeOf);
    SameGroupCodes(groups, sorted);
    assert forall g :: g in sorted ==> g in multiset(groups);
  }

  /** A rearrangement of groups names the same codes. */
  lemma SameGroupCodes(groups: seq<ReferralCount>, sorted: seq<ReferralCount>)
    requires multiset(sorted) == multiset(groups)
    ensures GroupCodes(sorted) == GroupCodes(groups)
  {
    GroupCodesMembers(groups);
    GroupCodesMembers(sorted);
    forall x | x in GroupCodes(sorted) ensures x in GroupCodes(groups) {
      GroupCodesOfMembers(sorted, x);
      var g :| g in sorted && g.code == x;
      assert g in multiset(groups);
    }
    forall x | x in GroupCodes(groups) ensures x in GroupCodes(sorted) {
      GroupCodesOfMembers(groups, x);
      var g :| g in groups && g.code == x;
      assert g in multiset(sorted);
    }
  }

  /** The result of get_stats. The verification rate is an exact percentage here. */
  datatype Stats = Stats(
    totalAccounts: int,
    verifiedAccounts: int,
    pendingAccounts: int,
    totalPoints: int,
    verificationRate: real,
    referralStats: seq<ReferralCount>)

  /** The loop of get_stats that appends each fetched group to referral_stats. */
  method CopyGroups(rows: seq<ReferralCount>) returns (copy: seq<ReferralCount>)
    ensures copy == rows
  {
    copy := [];
    var i := 0;
    while i < |rows|
      invariant 0 <= i <= |rows|
      invariant copy == rows[..i]
    {
      var g := rows[i];
      assert rows[..i + 1] == rows[..i] + [g];
      copy := copy + [ReferralCount(g.code, g.count)];
      i := i + 1;
    }
    assert rows[..i] == rows;
  }

  /** The figures get_stats reports for a table. */
  function StatsOf(rows: seq<Account>): Stats
  {
    var verified := Count(rows, IsVerified);
    CountComplement(rows, IsVerified, IsPending);
    Stats(|rows|, verified, Count(rows, IsPending), if rows == [] then 0 else SumBy(rows, Points),
          VerificationRate(verified, |rows|), Histogram(rows))
  }

  /** get_stats: verified and pending accounts partition the table, the points are the
      table's sum (0 when empty), the rate is the verified percentage, and referral_stats
      has one group per code used, largest first, whose counts add up to the table. */
  lemma StatsFacts(rows: seq<Account>)
    ensures var st := StatsOf(rows);
            && st.totalAccounts == |rows|
            && st.verifiedAccounts + st.pendingAccounts == st.totalAccounts
            && st.verifiedAccounts == |Filter(rows, IsVerified)|
            && st.totalPoints == SumBy(rows, Points)
            && st.verificationRate == VerificationRate(st.verifiedAccounts, st.totalAccounts)
            && (rows == [] ==> st.verificationRate == 0.0)
            && 0.0 <= st.verificationRate <= 100.0
            && SumBy(st.referralStats, CountOf) == st.totalAccounts
            && DistinctBy(st.referralStats, CodeOf) && NonIncreasing(st.referralStats, CountOf)
            && GroupCodes(st.referralStats) == RowCodes(rows)
            && forall g :: g in st.referralStats ==> g.count == CodeCount(rows, g.code) && g.count >= 1
  {
    FilterCount(rows, IsVerified);
    CountComplement(rows, IsVerified, IsPending);
    VerificationRateRange(Count(rows, IsVerified), |rows|);
    HistogramFacts(rows);
  }

  // ---------------------------------------------------------------------------
  // The store object

  /** The result of export_to_json, without the ISO-8601 rendering. */
  datatype JsonExport = JsonExport(exportedAt: int, totalAccounts: int, accounts: seq<Account>)

  /** The result of export_to_csv: no header and no rows for an empty table. */
  datatype CsvExport = CsvExport(header: seq<string>, rows: seq<Account>)

  class AccountManager {
    var accounts: seq<Account>
    var history: seq<TaskEntry>
    var accountSeq: int
    var historySeq: int

    ghost predicate Valid()
      reads this
    {
      TablesOk(Tables(accounts, history, accountSeq, historySeq))
    }

    /** Opening a database file: init_database creates missing tables empty and
        never touches existing ones, so the store holds what the file held. */
    constructor Open(image: Tables)
      requires TablesOk(image)
      ensures Valid()
      ensures accounts == image.accounts && history == image.history
      ensures accountSeq == image.accountSeq && historySeq == image.historySeq
    {
      accounts := image.accounts;
      history := image.history;
      accountSeq := image.accountSeq;
      historySeq := image.historySeq;
    }

    /** add_account. A missing email, password or referral code violates NOT NULL:
        the statement aborts and False is returned with both tables unchanged. */
    method AddAccount(email: Option<string>, password: Option<string>, referralCode: Option<string>,
                      verified: bool, verificationCode: Option<string>, cookies: Option<string>, now: int)
      returns (ok: bool)
      requires Valid()
      modifies this
      ensures Valid()
      ensures ok <==> email.Some? && password.Some? && referralCode.Some?
      ensures ok ==> accountSeq == old(accountSeq) + 1 &&
                     accounts == Upsert(old(accounts), NewRow(accountSeq, email.value, password.value,
                       referralCode.value, verified, verificationCode, cookies, now))
      ensures ok ==> Lookup(accounts, email.value) == Some(Account(old(accountSeq) + 1, email.value,
                       password.value, referralCode.value, now, verified, verificationCode,
                       DefaultPoints, None, DefaultStatus, cookies, None))
      ensures !ok ==> accounts == old(accounts) && accountSeq == old(accountSeq)
      ensures history == old(history) && historySeq == old(historySeq)
    {
      if email.None? || password.None? || referralCode.None? {
        return false;
      }
      var row := NewRow(accountSeq + 1, email.value, password.value, referralCode.value,
                        verified, verificationCode, cookies, now);
      UpsertEffect(accounts, accountSeq, row, row.email);
      accounts := Upsert(accounts, row);
      accountSeq := accountSeq + 1;
      return true;
    }

    /** get_account_by_email. */
    function GetAccountByEmail(email: string): (r: Option<Account>)
      reads this
      ensures r.Some? ==> r.value in accounts && r.value.email == email
      ensures r.None? <==> forall a :: a in accounts ==> a.email != email
    {
      Lookup(accounts, email)
    }

    /** get_all_accounts: every row once, newest created_at first (ties in any order). */
    function GetAllAccounts(): (r: seq<Account>)
      reads this
      ensures multiset(r) == multiset(accounts)
      ensures NonIncreasing(r, CreatedAt)
    {
      SortDesc(accounts, CreatedAt)
    }

    /** get_verified_accounts: exactly the verified, active rows. */
    function GetVerifiedAccounts(): (r: seq<Account>)
      reads this
      ensures forall a :: a in r <==> a in accounts && a.verified && a.status == DefaultStatus
      ensures forall a :: multiset(r)[a] == if IsVerifiedActive(a) then multiset(accounts)[a] else 0
    {
      FilterMultiset(accounts, IsVerifiedActive);
      Filter(accounts, IsVerifiedActive)
    }

    /** get_pending_accounts: exactly the unverified rows. */
    function GetPendingAccounts(): (r: seq<Account>)
      reads this
      ensures forall a :: a in r <==> a in accounts && !a.verified
      ensures forall a :: multiset(r)[a] == if IsPending(a) then multiset(accounts)[a] else 0
    {
      FilterMultiset(accounts, IsPending);
      Filter(accounts, IsPending)
    }

    /** get_accounts_needing_tasks: verified, active rows never run or run strictly
        before now minus the window; a subset of get_verified_accounts. */
    function GetAccountsNeedingTasks(hoursSince: int, now: int): (r: seq<Account>)
      reads this
      ensures forall a :: a in r <==>
                (a in accounts && a.verified && a.status == DefaultStatus &&
                 (a.lastTaskRun.None? ||
                  (hoursSince >= 0 && a.lastTaskRun.value < now - hoursSince * SecondsPerHour)))
      ensures forall a :: a in r ==> a in GetVerifiedAccounts()
      ensures forall a :: multiset(r)[a] == if NeedsTasks(a, now, hoursSince) then multiset(accounts)[a] else 0
    {
      FilterMultiset(accounts, (a: Account) => NeedsTasks(a, now, hoursSince));
      Filter(accounts, (a: Account) => NeedsTasks(a, now, hoursSince))
    }

    /** update_account_points: silently does nothing when no row has the email. */
    method UpdateAccountPoints(email: string, pointsEarned: int, now: int)
      requires Valid()
      modifies this
      ensures Valid()
      ensures accounts == Accrue(old(accounts), email, pointsEarned, now)
      ensures old(Lookup(accounts, email)).None? ==> accounts == old(accounts)
      ensures history == old(history)
      ensures accountSeq == old(accountSeq) && historySeq == old(historySeq)
    {
      AccrueEffect(accounts, accountSeq, email, pointsEarned, now);
      accounts := Accrue(accounts, email, pointsEarned, now);
    }

    /** record_task_completion: appends one history row whether or not the account
        exists. A missing email or task type is a NOT NULL violation, which this
        operation does not catch: `raised` is then true and nothing changes. */
    method RecordTaskCompletion(email: Option<string>, taskType: Option<string>, xpEarned: Option<int>,
                                details: Option<Details>, now: int)
      returns (raised: bool)
      requires Valid()
      modifies this
      ensures Valid()
      ensures raised <==> email.None? || taskType.None?
      ensures !raised ==>
                historySeq == old(historySeq) + 1 &&
                history == old(history) + [TaskEntry(historySeq, email.value, taskType.value,
                                                     xpEarned, now, StoredDetails(details))]
      ensures raised ==> history == old(history) && historySeq == old(historySeq)
      ensures accounts == old(accounts) && accountSeq == old(accountSeq)
    {
      if email.None? || taskType.None? {
        return true;
      }
      var entry := TaskEntry(historySeq + 1, email.value, taskType.value, xpEarned, now, StoredDetails(details));
      IdsBelowAppend(history, entry, EntryId, historySeq);
      history := history + [entry];
      historySeq := historySeq + 1;
      return false;
    }

    /** delete_account: removes the account row, then every history row of the email. */
    method DeleteAccount(email: string)
      requires Valid()
      modifies this
      ensures Valid()
      ensures accounts == DeleteAccounts(old(accounts), email)
      ensures history == DeleteHistory(old(history), email)
      ensures Lookup(accounts, email).None?
      ensures accountSeq == old(accountSeq) && historySeq == old(historySeq)
    {
      FilterKeepsAccounts(accounts, (a: Account) => a.email != email, accountSeq);
      FilterKeepsEntries(history, (h: TaskEntry) => h.email != email, historySeq);
      DeleteEffect(accounts, history, email, email);
      accounts := DeleteAccounts(accounts, email);
      history := DeleteHistory(history, email);
    }

    /** get_stats: five aggregate queries over `accounts`, the grouped rows copied one
        by one into referral_stats, and the rate guarded against an empty table. */
    method GetStats() returns (st: Stats)
      ensures st == StatsOf(accounts)
    {
      var total := |accounts|;
      var verified := Count(accounts, IsVerified);
      var pending := Count(accounts, IsPending);
      CountComplement(accounts, IsVerified, IsPending);
      // SUM over no rows is NULL, and `or 0` turns NULL (and 0) into 0.
      var sum: Option<int> := if accounts == [] then None else Some(SumBy(accounts, Points));
      var points := if sum.None? || sum.value == 0 then 0 else sum.value;
      var grouped := Histogram(accounts);
      var referral := CopyGroups(grouped);
      var rate := VerificationRate(verified, total);
      st := Stats(total, verified, pending, points, rate, referral);
    }

    /** export_to_json: the get_all_accounts rows and their number. */
    function ExportToJson(now: int): (e: JsonExport)
      reads this
      ensures e.exportedAt == now
      ensures e.totalAccounts == |e.accounts| == |accounts|
      ensures multiset(e.accounts) == multiset(accounts) && NonIncreasing(e.accounts, CreatedAt)
    {
      var rows := GetAllAccounts();
      JsonExport(now, |rows|, rows)
    }

    /** export_to_csv: a header of the column names when there is a row, then the rows. */
    function ExportToCsv(): (e: CsvExport)
      reads this
      ensures accounts == [] ==> e.header == [] && e.rows == []
      ensures accounts != [] ==> e.header == AccountColumns
      ensures multiset(e.rows) == multiset(accounts) && NonIncreasing(e.rows, CreatedAt)
    {
      var rows := GetAllAccounts();
      CsvExport(if rows == [] then [] else AccountColumns, rows)
    }
  }
}
