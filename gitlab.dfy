/**
 * The GitLab mapper of `sync/gitlab/gitlab.go`: issues fetched from the API become todo.txt tasks,
 * one per issue and in the same order, all under one prefix.
 */
module GitLab {
  import opened Wrappers
  import opened Strings
  import opened Tasks
  import Reconcile

  /** `Issue`: the fields of the API record the mapper reads; an absent `due_date` is `None`. */
  datatype Issue = Issue(title: string, webUrl: string, state: string, createdAt: Option<Date>, dueDate: Option<Date>)

  /** The task for one issue: a fresh task with the prefixed title, the issue's dates, and its address and state as tags. */
  function IssueTask(issue: Issue, prefix: string): Task {
    Task(prefix + issue.title, "", [], [], map["url" := issue.webUrl, "state" := issue.state],
         issue.createdAt, issue.dueDate, None, false)
  }

  /** `CreateIssueTaskList`: one task per issue, in order. */
  method CreateIssueTaskList(issues: seq<Issue>, prefix: string) returns (tl: seq<Task>)
    ensures |tl| == |issues|
    ensures forall i :: 0 <= i < |issues| ==> tl[i] == IssueTask(issues[i], prefix)
  {
    tl := [];
    for i := 0 to |issues|
      invariant |tl| == i
      invariant forall j :: 0 <= j < i ==> tl[j] == IssueTask(issues[j], prefix)
    {
      var issue := issues[i];
      // The creation date `NewTask` stamps is overwritten below, so its clock reading does not matter.
      var task := NewTask(Date(0));
      task := task.(todo := prefix + issue.title);
      task := task.(createdDate := issue.createdAt);
      if issue.dueDate.Some? {
        task := task.(dueDate := issue.dueDate);
      }
      task := task.(tags := task.tags["url" := issue.webUrl]);
      task := task.(tags := task.tags["state" := issue.state]);
      tl := tl + [task];
    }
  }

  /**
   * What a task made from an issue holds: the title behind the prefix, the issue's creation and due
   * dates, exactly the tags `url` and `state` (no identity tag), and an open task. Its URL is the one
   * the reconciler matches on.
   */
  lemma IssueTaskProperties(issue: Issue, prefix: string)
    ensures var t := IssueTask(issue, prefix);
      && HasPrefix(t.todo, prefix) && t.todo[|prefix|..] == issue.title
      && t.createdDate == issue.createdAt && t.dueDate == issue.dueDate
      && t.tags.Keys == {"url", "state"}
      && t.tags["url"] == issue.webUrl && t.tags["state"] == issue.state
      && "uuid" !in t.tags && "id" !in t.tags
      && !t.completed && t.completedDate.None?
      && Reconcile.Url(t) == Some(issue.webUrl)
  {
    var t := IssueTask(issue, prefix);
    assert t.todo[..|prefix|] == prefix;
  }

  /** Issues with distinct addresses give a task list the reconciler can sync twice without change. */
  lemma DistinctAddressesDistinctUrls(issues: seq<Issue>, prefix: string, tl: seq<Task>)
    requires forall j, k :: 0 <= j < k < |issues| ==> issues[j].webUrl != issues[k].webUrl
    requires |tl| == |issues| && forall i :: 0 <= i < |issues| ==> tl[i] == IssueTask(issues[i], prefix)
    ensures Reconcile.DistinctUrls(tl)
  {
    forall i | 0 <= i < |tl| ensures Reconcile.Url(tl[i]) == Some(issues[i].webUrl) {
      IssueTaskProperties(issues[i], prefix);
    }
  }
}
