/** The daily-task runner: an XP table built from defaults and configuration, the
    seven task completions, and the loop that runs them for one account and adds up
    the XP they report. Network calls and sleeps are inputs: the login verdict is a
    function of email and password, and each task's run says whether and where an
    exception was raised. */
module TaskBot {
  import opened Basics
  import AccountManager

  /** The XP table used when the configuration says nothing. */
  const DefaultXp: map<string, int> :=
    map["checkin" := 10, "video" := 5, "article" := 3, "share" := 5, "like" := 1, "follow" := 3, "profile" := 4]

  /** The seven daily tasks. */
  datatype Task = Checkin | WatchVideo | ReadArticle | Share | Like | Follow | ProfileUpdate
  {
    /** The key the task is looked up and reported under. */
    function Name(): string
    {
      match this
      case Checkin => "checkin"
      case WatchVideo => "video"
      case ReadArticle => "article"
      case Share => "share"
      case Like => "like"
      case Follow => "follow"
      case ProfileUpdate => "profile"
    }

    /** The value each complete_* method falls back to when its key is absent. */
    function FallbackXp(): int
    {
      match this
      case Checkin => 10
      case WatchVideo => 5
      case ReadArticle => 3
      case Share => 5
      case Like => 1
      case Follow => 3
      case ProfileUpdate => 4
    }
  }

  const TaskCount := 7

  /** The i-th task in the order complete_all_tasks runs them: checkin, video, article,
      share, like, follow, profile. */
  function TaskAt(i: nat): Task
    requires i < TaskCount
  {
    match i
    case 0 => Checkin
    case 1 => WatchVideo
    case 2 => ReadArticle
    case 3 => Share
    case 4 => Like
    case 5 => Follow
    case _ => ProfileUpdate
  }

  /** The run order visits every task exactly once. */
  lemma TaskOrderIsComplete(t: Task)
    ensures exists i :: 0 <= i < TaskCount && TaskAt(i) == t
    ensures forall i, j :: 0 <= i < j < TaskCount ==> TaskAt(i) != TaskAt(j)
  {
    match t
    case Checkin => assert TaskAt(0) == t;
    case WatchVideo => assert TaskAt(1) == t;
    case ReadArticle => assert TaskAt(2) == t;
    case Share => assert TaskAt(3) == t;
    case Like => assert TaskAt(4) == t;
    case Follow => assert TaskAt(5) == t;
    case ProfileUpdate => assert TaskAt(6) == t;
  }

  /** _load_task_xp: the defaults overlaid with the `task_settings` object of the
      configuration; None stands for a missing, unreadable or settings-free file. */
  function LoadTaskXp(settings: Option<map<string, int>>): (xp: map<string, int>)
    ensures forall k :: k in xp <==> k in DefaultXp || (settings.Some? && k in settings.value)
    ensures forall k :: k in xp ==>
              xp[k] == if settings.Some? && k in settings.value then settings.value[k] else DefaultXp[k]
    ensures settings.None? ==> xp == DefaultXp
  {
    match settings
    case None => DefaultXp
    case Some(overrides) => DefaultXp + overrides
  }

  /** Every task's key is in the table, whatever the configuration adds. */
  lemma LoadedTableHasEveryTask(settings: Option<map<string, int>>)
    ensures forall t: Task :: t.Name() in LoadTaskXp(settings)
  {
    forall t: Task
      ensures t.Name() in DefaultXp
    {
      match t
      case Checkin =>
      case WatchVideo =>
      case ReadArticle =>
      case Share =>
      case Like =>
      case Follow =>
      case ProfileUpdate =>
    }
  }

  /** Each task's fallback is its default XP, so the lookup gives the same value either way. */
  lemma FallbackIsDefault(t: Task)
    ensures t.Name() in DefaultXp && DefaultXp[t.Name()] == t.FallbackXp()
  {
  }

  /** What the loop records for one task. */
  datatype TaskRecord = Finished(success: bool, xp: int) | Errored(error: string)

  datatype TaskResult = TaskResult(name: string, record: TaskRecord)

  /** How one iteration of the loop went: the task either ran to its end (raising
      internally or not), or an exception escaped the delay before it, or escaped the
      delay after it once its XP was already added. */
  datatype TaskRun =
    | Ran(raised: bool)
    | RaisedBefore(error: string)
    | RaisedAfter(raisedInTask: bool, error: string)

  /** What complete_all_tasks returns. */
  datatype Outcome =
    | Refused(error: string)
    | Report(success: bool, email: string, totalXp: int, tasks: seq<TaskResult>)

  /** The (success, xp) pair a complete_* method returns with the given table. */
  function TaskValue(xp: map<string, int>, t: Task, raised: bool): (bool, int)
  {
    if raised then (false, 0)
    else (true, if t.Name() in xp then xp[t.Name()] else t.FallbackXp())
  }

  /** XP a result reports as earned. */
  function Earned(r: TaskResult): int
  {
    if r.record.Finished? && r.record.success then r.record.xp else 0
  }

  /** The result one iteration of the loop records for task t. */
  function StepResult(xp: map<string, int>, t: Task, run: TaskRun): TaskResult
  {
    match run
    case RaisedBefore(e) => TaskResult(t.Name(), Errored(e))
    case Ran(raised) =>
      var v := TaskValue(xp, t, raised);
      TaskResult(t.Name(), Finished(v.0, v.1))
    case RaisedAfter(_, e) => TaskResult(t.Name(), Errored(e))
  }

  /** The XP one iteration adds to total_xp: the task's value when it reported success. */
  function StepXp(xp: map<string, int>, t: Task, run: TaskRun): int
  {
    match run
    case RaisedBefore(_) => 0
    case Ran(raised) => var v := TaskValue(xp, t, raised); if v.0 then v.1 else 0
    case RaisedAfter(raised, _) => var v := TaskValue(xp, t, raised); if v.0 then v.1 else 0
  }

  /** The loop's running total and its results so far. */
  datatype Tallied = Tallied(total: int, results: seq<TaskResult>)

  /** The total and the results after the first n tasks of the loop. */
  function Tally(xp: map<string, int>, runs: seq<TaskRun>, n: nat): Tallied
    requires n <= TaskCount && n <= |runs|
  {
    if n == 0 then Tallied(0, [])
    else
      var prev := Tally(xp, runs, n - 1);
      Tallied(prev.total + StepXp(xp, TaskAt(n - 1), runs[n - 1]),
              prev.results + [StepResult(xp, TaskAt(n - 1), runs[n - 1])])
  }

  /** A run credits nothing when the task raised inside or never ran. */
  predicate Fails(run: TaskRun)
  {
    run.RaisedBefore? || (run.Ran? && run.raised) || (run.RaisedAfter? && run.raisedInTask)
  }

  /** One iteration records the task's name; unless an exception escapes the delay
      after the task, the XP it adds is the XP its result reports as earned; a failing
      run adds nothing; with non-negative values, a run adds a positive amount exactly
      when the task completes and is worth XP. */
  lemma StepFacts(xp: map<string, int>, t: Task, run: TaskRun)
    ensures StepResult(xp, t, run).name == t.Name()
    ensures !run.RaisedAfter? ==> Earned(StepResult(xp, t, run)) == StepXp(xp, t, run)
    ensures Fails(run) ==> StepXp(xp, t, run) == 0
    ensures (forall k :: k in xp ==> xp[k] >= 0) ==>
              StepXp(xp, t, run) >= 0 &&
              (StepXp(xp, t, run) > 0 <==> !Fails(run) && TaskValue(xp, t, false).1 > 0)
  {
    if forall k :: k in xp ==> xp[k] >= 0 {
      assert t.FallbackXp() >= 0 by { match t case _ => }
    }
  }

  /** The loop records one result per task, under the task's name, in the fixed order. */
  lemma {:induction false} TallyNames(xp: map<string, int>, runs: seq<TaskRun>, n: nat)
    requires n <= TaskCount && n <= |runs|
    ensures |Tally(xp, runs, n).results| == n
    ensures forall i :: 0 <= i < n ==> Tally(xp, runs, n).results[i].name == TaskAt(i).Name()
  {
    if n > 0 {
      TallyNames(xp, runs, n - 1);
      StepFacts(xp, TaskAt(n - 1), runs[n - 1]);
      NamesStep(Tally(xp, runs, n - 1).results, StepResult(xp, TaskAt(n - 1), runs[n - 1]), n);
    }
  }

  /** Appending the n-th task's result to results named after the first n - 1 tasks. */
  lemma NamesStep(prev: seq<TaskResult>, last: TaskResult, n: nat)
    requires 0 < n <= TaskCount && |prev| == n - 1
    requires forall i :: 0 <= i < n - 1 ==> prev[i].name == TaskAt(i).Name()
    requires last.name == TaskAt(n - 1).Name()
    ensures forall i :: 0 <= i < n ==> (prev + [last])[i].name == TaskAt(i).Name()
  {
    forall i | 0 <= i < n
      ensures (prev + [last])[i].name == TaskAt(i).Name()
    {
      if i < n - 1 { assert (prev + [last])[i] == prev[i]; }
    }
  }

  /** Unless an exception escapes a delay after a task, the total is the XP of the
      results that report success. */
  lemma {:induction false} TallyTotal(xp: map<string, int>, runs: seq<TaskRun>, n: nat)
    requires n <= TaskCount && n <= |runs|
    requires forall i :: 0 <= i < n ==> !runs[i].RaisedAfter?
    ensures Tally(xp, runs, n).total == SumBy(Tally(xp, runs, n).results, Earned)
  {
    if n > 0 {
      TallyTotal(xp, runs, n - 1);
      var last := StepResult(xp, TaskAt(n - 1), runs[n - 1]);
      StepFacts(xp, TaskAt(n - 1), runs[n - 1]);
      SumByAppend(Tally(xp, runs, n - 1).results, [last], Earned);
    }
  }

  /** If every task fails the total is 0. */
  lemma {:induction false} AllFailNothingEarned(xp: map<string, int>, runs: seq<TaskRun>, n: nat)
    requires n <= TaskCount && n <= |runs|
    requires forall i :: 0 <= i < n ==> Fails(runs[i])
    ensures Tally(xp, runs, n).total == 0
  {
    if n > 0 {
      AllFailNothingEarned(xp, runs, n - 1);
      StepFacts(xp, TaskAt(n - 1), runs[n - 1]);
    }
  }

  /** With non-negative XP values the total is never negative, and it is positive
      exactly when some task that ran to its end without raising is worth XP. */
  lemma {:induction false} TallyNonNegative(xp: map<string, int>, runs: seq<TaskRun>, n: nat)
    requires n <= TaskCount && n <= |runs|
    requires forall k :: k in xp ==> xp[k] >= 0
    ensures Tally(xp, runs, n).total >= 0
    ensures Tally(xp, runs, n).total > 0 <==>
              exists i :: 0 <= i < n && !Fails(runs[i]) && TaskValue(xp, TaskAt(i), false).1 > 0
  {
    if n > 0 {
      TallyNonNegative(xp, runs, n - 1);
      StepFacts(xp, TaskAt(n - 1), runs[n - 1]);
      if !Fails(runs[n - 1]) && TaskValue(xp, TaskAt(n - 1), false).1 > 0 {
        assert Tally(xp, runs, n).total > 0;
      }
    }
  }

  /** The runner for one account. */
  class TaskBot {
    /** The XP table loaded when the bot is created. */
    const taskXp: map<string, int>

    /** __init__ together with _load_task_xp; the HTTP session is not modelled. */
    constructor (settings: Option<map<string, int>>)
      ensures taskXp == LoadTaskXp(settings)
    {
      taskXp := LoadTaskXp(settings);
    }

    /** The complete_* methods: (True, the task's XP) when nothing raises inside,
        (False, 0) otherwise. */
    method Complete(t: Task, raised: bool) returns (success: bool, xp: int)
      ensures success == !raised
      ensures raised ==> xp == 0
      ensures !raised && t.Name() in taskXp ==> xp == taskXp[t.Name()]
      ensures !raised && t.Name() !in taskXp ==> xp == t.FallbackXp()
    {
      if raised {
        return false, 0;
      }
      if t.Name() in taskXp {
        xp := taskXp[t.Name()];
      } else {
        xp := t.FallbackXp();
      }
      success := true;
    }

    /** complete_all_tasks. `password` None or "" means "look it up"; `accounts` is the
        account table it is looked up in; `login` is the site's verdict on a
        credential pair; runs[i] is how the i-th task's iteration went. */
    method CompleteAllTasks(email: string, password: Option<string>, accounts: seq<AccountManager.Account>,
                            login: (string, string) -> bool, runs: seq<TaskRun>)
      returns (outcome: Outcome)
      requires |runs| == TaskCount
      requires !runs[TaskCount - 1].RaisedAfter?
      ensures var given := password.Some? && password.value != "";
              var found := AccountManager.Lookup(accounts, email);
              && (!given && found.None? ==> outcome == Refused("Account not found"))
              && (given || found.Some? ==>
                    var pw := if given then password.value else found.value.password;
                    && (!login(email, pw) ==> outcome == Refused("Login failed"))
                    && (login(email, pw) ==>
                          var tally := Tally(taskXp, runs, TaskCount);
                          outcome == Report(tally.total > 0, email, tally.total, tally.results)))
    {
      var pw: string;
      if password.None? || password.value == "" {
        var account := AccountManager.Lookup(accounts, email);
        if account.None? {
          return Refused("Account not found");
        }
        pw := account.value.password;
      } else {
        pw := password.value;
      }
      if !login(email, pw) {
        return Refused("Login failed");
      }
      var totalXp, results := RunTasks(runs);
      return Report(totalXp > 0, email, totalXp, results);
    }

    /** The loop of complete_all_tasks: the seven tasks in order, each result appended
        and each success's XP added to the total. */
    method RunTasks(runs: seq<TaskRun>) returns (totalXp: int, results: seq<TaskResult>)
      requires |runs| == TaskCount
      ensures Tallied(totalXp, results) == Tally(taskXp, runs, TaskCount)
    {
      results := [];
      totalXp := 0;
      var i := 0;
      while i < TaskCount
        invariant 0 <= i <= TaskCount
        invariant Tallied(totalXp, results) == Tally(taskXp, runs, i)
        decreases TaskCount - i
      {
        var t := TaskAt(i);
        ghost var before := results;
        ghost var step := StepResult(taskXp, t, runs[i]);
        assert Tally(taskXp, runs, i + 1) == Tallied(totalXp + StepXp(taskXp, t, runs[i]), before + [step]);
        match runs[i] {
        case Ran(raised) =>
          var ok, xp := Complete(t, raised);
          results := results + [TaskResult(t.Name(), Finished(ok, xp))];
          if ok {
            totalXp := totalXp + xp;
          }
        case RaisedBefore(e) =>
          results := results + [TaskResult(t.Name(), Errored(e))];
        case RaisedAfter(raised, e) =>
          var ok, xp := Complete(t, raised);
          results := results + [TaskResult(t.Name(), Finished(ok, xp))];
          if ok {
            totalXp := totalXp + xp;
          }
          assert results[..|results| - 1] == before;
          results := results[..|results| - 1] + [TaskResult(t.Name(), Errored(e))];
        }
        assert results == before + [step];
        i := i + 1;
      }
    }
  }

  /** The default XP of the first n tasks in run order. */
  function DefaultSum(n: nat): int
    requires n <= TaskCount
  {
    if n == 0 then 0 else DefaultSum(n - 1) + TaskAt(n - 1).FallbackXp()
  }

  lemma DefaultSumIs31()
    ensures DefaultSum(TaskCount) == 31
  {
  }

  /** With the default table and every task completing, the first n tasks earn their
      default XP. */
  lemma {:induction false} DefaultRunPrefix(runs: seq<TaskRun>, n: nat)
    requires n <= TaskCount && |runs| == TaskCount
    requires forall i :: 0 <= i < |runs| ==> runs[i] == Ran(false)
    ensures Tally(DefaultXp, runs, n).total == DefaultSum(n)
  {
    if n > 0 {
      DefaultRunPrefix(runs, n - 1);
      FallbackIsDefault(TaskAt(n - 1));
      assert runs[n - 1] == Ran(false);
    }
  }

  /** With the default table and every task completing, a run earns 31 XP. */
  lemma DefaultRunEarns31(runs: seq<TaskRun>)
    requires |runs| == TaskCount
    requires forall i :: 0 <= i < |runs| ==> runs[i] == Ran(false)
    ensures Tally(DefaultXp, runs, TaskCount).total == 31
  {
    DefaultRunPrefix(runs, TaskCount);
    DefaultSumIs31();
  }

  /** A report whose every task failed is not a success. */
  lemma AllFailedIsNoSuccess(xp: map<string, int>, runs: seq<TaskRun>)
    requires |runs| == TaskCount
    requires forall i :: 0 <= i < |runs| ==> Fails(runs[i])
    ensures !(Tally(xp, runs, TaskCount).total > 0)
  {
    AllFailNothingEarned(xp, runs, TaskCount);
  }
}
