/**
 * The OpenProject mapper of `sync/openproject/openproject.go`: work packages become todo.txt tasks,
 * one per work package and in the same order. The date parsers of Go's `time` package (the RFC 3339
 * layout for the creation time, `2006-01-02` for the due day) are parameters, and so are the clock
 * readings `todotxt.NewTask` stamps as creation dates, one per work package.
 */
module OpenProject {
  import opened Wrappers
  import opened Strings
  import opened Tasks
  import Reconcile

  /**
   * `WorkPackage`: the fields the mapper reads. `projectTitle` and `typeTitle` are the titles under
   * `_links`; the dates are the API's text, `""` when absent.
   */
  datatype WorkPackage = WorkPackage(
    id: int,
    subject: string,
    projectTitle: string,
    typeTitle: string,
    createdAt: string,
    startDate: string,
    dueDate: string)

  /** `EnsureSpaceAtEnd`: the shortest extension of `prefix` that ends in a space. */
  function EnsureSpaceAtEnd(prefix: string): (r: string)
    ensures HasSuffix(r, " ") && HasPrefix(r, prefix) && |r| <= |prefix| + 1
    ensures HasSuffix(prefix, " ") ==> r == prefix
  {
    if HasSuffix(prefix, " ") then prefix else prefix + " "
  }

  /** Applying it twice is applying it once. */
  lemma EnsureSpaceAtEndIdempotent(prefix: string)
    ensures EnsureSpaceAtEnd(EnsureSpaceAtEnd(prefix)) == EnsureSpaceAtEnd(prefix)
  {
  }

  /** Without a final space, exactly one space is added. */
  lemma EnsureSpaceAtEndAdds(prefix: string)
    requires !HasSuffix(prefix, " ")
    ensures EnsureSpaceAtEnd(prefix) == prefix + " "
  {
  }

  /** The address of a work package: the instance URL, `/wp/`, and the decimal id. */
  function WorkPackageUrl(opUrl: string, id: int): string {
    opUrl + "/wp/" + Decimal(id)
  }

  /** Distinct ids give distinct addresses on one instance. */
  lemma WorkPackageUrlInjective(opUrl: string, a: int, b: int)
    requires WorkPackageUrl(opUrl, a) == WorkPackageUrl(opUrl, b)
    ensures a == b
  {
    var base := opUrl + "/wp/";
    assert WorkPackageUrl(opUrl, a)[|base|..] == Decimal(a);
    assert WorkPackageUrl(opUrl, b)[|base|..] == Decimal(b);
    DecimalInjective(a, b);
  }

  /** A date read from a text when it is non-empty and reads, nothing otherwise. */
  function ParsedDate(text: string, parse: string -> Option<Date>): Option<Date> {
    if text != "" then parse(text) else None
  }

  /** The tags of the task: `t` (the threshold date) from a non-empty start date, and the address. */
  function WorkPackageTags(wp: WorkPackage, opUrl: string): map<string, string> {
    var tags := if wp.startDate != "" then map["t" := wp.startDate] else map[];
    tags["url" := WorkPackageUrl(opUrl, wp.id)]
  }

  /**
   * The task for one work package, with `spaced` the prefix after `EnsureSpaceAtEnd`: the project
   * title, the type title and the subject behind it; the creation time when it reads, the clock
   * reading `now` otherwise; the due day when it reads, none otherwise.
   */
  function WorkPackageTask(wp: WorkPackage, spaced: string, opUrl: string, now: Date,
                           parseTime: string -> Option<Date>, parseDay: string -> Option<Date>): Task
  {
    var created := ParsedDate(wp.createdAt, parseTime);
    Task(spaced + wp.projectTitle + ": " + wp.typeTitle + ": " + wp.subject, "", [], [],
         WorkPackageTags(wp, opUrl),
         if created.Some? then created else Some(now),
         ParsedDate(wp.dueDate, parseDay), None, false)
  }

  /** The body of the loop of `CreateTaskList`: a fresh task, filled field by field. */
  method PackageTask(wp: WorkPackage, spaced: string, opUrl: string, now: Date,
                     parseTime: string -> Option<Date>, parseDay: string -> Option<Date>)
    returns (to: Task)
    ensures to == WorkPackageTask(wp, spaced, opUrl, now, parseTime, parseDay)
  {
    to := NewTask(now);
    to := to.(todo := spaced + wp.projectTitle + ": " + wp.typeTitle + ": " + wp.subject);
    if wp.createdAt != "" {
      var createdDate := parseTime(wp.createdAt);
      if createdDate.Some? {
        to := to.(createdDate := createdDate);
      }
    }
    if wp.startDate != "" {
      to := to.(tags := to.tags["t" := wp.startDate]);
    }
    if wp.dueDate != "" {
      var dueDate := parseDay(wp.dueDate);
      if dueDate.Some? {
        to := to.(dueDate := dueDate);
      }
    }
    to := to.(tags := to.tags["url" := WorkPackageUrl(opUrl, wp.id)]);
  }

  /** `CreateTaskList`: one task per work package, in order, with `now[i]` the clock reading for the `i`-th. */
  method CreateTaskList(workPackages: seq<WorkPackage>, prefix: string, opUrl: string, now: seq<Date>,
                        parseTime: string -> Option<Date>, parseDay: string -> Option<Date>)
    returns (tl: seq<Task>)
    requires |now| == |workPackages|
    ensures |tl| == |workPackages|
    ensures forall i :: 0 <= i < |workPackages| ==>
      tl[i] == WorkPackageTask(workPackages[i], EnsureSpaceAtEnd(prefix), opUrl, now[i], parseTime, parseDay)
  {
    var spaced := EnsureSpaceAtEnd(prefix);
    tl := [];
    for i := 0 to |workPackages|
      invariant |tl| == i
      invariant forall j :: 0 <= j < i ==>
        tl[j] == WorkPackageTask(workPackages[j], spaced, opUrl, now[j], parseTime, parseDay)
    {
      var to := PackageTask(workPackages[i], spaced, opUrl, now[i], parseTime, parseDay);
      tl := tl + [to];
    }
  }

  /** The tags: `t` exactly when the start date is non-empty, holding it, and the address under `url`. */
  lemma WorkPackageTagsProperties(wp: WorkPackage, opUrl: string)
    ensures var tags := WorkPackageTags(wp, opUrl);
      && ("t" in tags <==> wp.startDate != "") && (wp.startDate != "" ==> tags["t"] == wp.startDate)
      && tags.Keys <= {"t", "url"}
      && "url" in tags && tags["url"] == WorkPackageUrl(opUrl, wp.id)
  {
  }

  /** The title: the prefix ending in a space, then project, type and subject separated by `": "`. */
  lemma WorkPackageTodo(wp: WorkPackage, spaced: string, opUrl: string, now: Date,
                        parseTime: string -> Option<Date>, parseDay: string -> Option<Date>)
    ensures var t := WorkPackageTask(wp, spaced, opUrl, now, parseTime, parseDay);
      && HasPrefix(t.todo, spaced)
      && t.todo[|spaced|..] == wp.projectTitle + ": " + wp.typeTitle + ": " + wp.subject
  {
    TitleAfterPrefix(spaced, wp.projectTitle, wp.typeTitle, wp.subject);
  }

  /** The title text splits after the prefix into project, type and subject. */
  lemma TitleAfterPrefix(spaced: string, project: string, kind: string, subject: string)
    ensures var todo := spaced + project + ": " + kind + ": " + subject;
      HasPrefix(todo, spaced) && todo[|spaced|..] == project + ": " + kind + ": " + subject
  {
    var todo := spaced + project + ": " + kind + ": " + subject;
    assert todo == spaced + (project + ": " + kind + ": " + subject);
    assert todo[..|spaced|] == spaced;
  }

  /**
   * What a task made from a work package holds: the prefix ending in a space, then project, type and
   * subject separated by `": "`; the `t` tag exactly when the start date is non-empty; the address
   * tag; the parsed dates only when their text is non-empty and reads; and an open task.
   */
  lemma WorkPackageTaskProperties(wp: WorkPackage, prefix: string, opUrl: string, now: Date,
                                  parseTime: string -> Option<Date>, parseDay: string -> Option<Date>)
    ensures var t := WorkPackageTask(wp, EnsureSpaceAtEnd(prefix), opUrl, now, parseTime, parseDay);
      && HasPrefix(t.todo, EnsureSpaceAtEnd(prefix))
      && t.todo[|EnsureSpaceAtEnd(prefix)|..] == wp.projectTitle + ": " + wp.typeTitle + ": " + wp.subject
      && ("t" in t.tags <==> wp.startDate != "") && (wp.startDate != "" ==> t.tags["t"] == wp.startDate)
      && t.tags.Keys <= {"t", "url"}
      && Reconcile.Url(t) == Some(WorkPackageUrl(opUrl, wp.id))
      && (wp.createdAt != "" && parseTime(wp.createdAt).Some? ==> t.createdDate == parseTime(wp.createdAt))
      && (wp.createdAt == "" || parseTime(wp.createdAt).None? ==> t.createdDate == Some(now))
      && (t.dueDate.Some? <==> wp.dueDate != "" && parseDay(wp.dueDate).Some?)
      && (t.dueDate.Some? ==> t.dueDate == parseDay(wp.dueDate))
      && !t.completed && t.completedDate.None?
  {
    var spaced := EnsureSpaceAtEnd(prefix);
    var t := WorkPackageTask(wp, spaced, opUrl, now, parseTime, parseDay);
    WorkPackageTodo(wp, spaced, opUrl, now, parseTime, parseDay);
    WorkPackageTagsProperties(wp, opUrl);
    assert t.tags == WorkPackageTags(wp, opUrl);
  }

  /** Work packages with distinct ids give a task list the reconciler can sync twice without change. */
  lemma DistinctIdsDistinctUrls(workPackages: seq<WorkPackage>, spaced: string, opUrl: string, now: seq<Date>,
                                parseTime: string -> Option<Date>, parseDay: string -> Option<Date>, tl: seq<Task>)
    requires forall j, k :: 0 <= j < k < |workPackages| ==> workPackages[j].id != workPackages[k].id
    requires |now| == |workPackages| && |tl| == |workPackages|
    requires forall i :: 0 <= i < |workPackages| ==>
      tl[i] == WorkPackageTask(workPackages[i], spaced, opUrl, now[i], parseTime, parseDay)
    ensures Reconcile.DistinctUrls(tl)
  {
    forall j, k | 0 <= j < k < |tl| && Reconcile.Url(tl[j]).Some?
      ensures Reconcile.Url(tl[j]) != Reconcile.Url(tl[k])
    {
      assert Reconcile.Url(tl[j]) == Some(WorkPackageUrl(opUrl, workPackages[j].id));
      assert Reconcile.Url(tl[k]) == Some(WorkPackageUrl(opUrl, workPackages[k].id));
      if WorkPackageUrl(opUrl, workPackages[j].id) == WorkPackageUrl(opUrl, workPackages[k].id) {
        WorkPackageUrlInjective(opUrl, workPackages[j].id, workPackages[k].id);
      }
    }
  }
}
