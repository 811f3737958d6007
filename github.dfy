/**
 * The GitHub mapper of `sync/github/github.go`: issues fetched from the API become todo.txt tasks,
 * one per issue and in the same order. A pull request is told apart by its web address.
 */
module GitHub {
  import opened Wrappers
  import opened Strings
  import opened Tasks
  import Reconcile

  /** `Issue`: the fields of the API record the mapper reads; an absent `due_on` is `None`. */
  datatype Issue = Issue(title: string, htmlUrl: string, state: string, createdAt: Option<Date>, dueOn: Option<Date>)

  /** `isPullRequest`: the web address is non-empty and contains `/pull/`. */
  predicate IsPullRequest(issue: Issue) {
    issue.htmlUrl != "" && Contains(issue.htmlUrl, "/pull/")
  }

  /** The emptiness test is implied by the search: an issue is a pull request exactly when `/pull/` occurs in its address. */
  lemma IsPullRequestIff(issue: Issue)
    ensures IsPullRequest(issue) <==> exists k :: OccursAt(issue.htmlUrl, "/pull/", k)
  {
    if exists k :: OccursAt(issue.htmlUrl, "/pull/", k) {
      var k :| OccursAt(issue.htmlUrl, "/pull/", k);
      assert |issue.htmlUrl| >= 6;
    }
  }

  /** The task for one issue: a fresh task with the prefixed title, the issue's dates, and its address and state as tags. */
  function IssueTask(issue: Issue, issuePrefix: string, pullPrefix: string): Task {
    var prefix := if IsPullRequest(issue) then pullPrefix else issuePrefix;
    Task(prefix + issue.title, "", [], [], map["url" := issue.htmlUrl, "state" := issue.state],
         issue.createdAt, issue.dueOn, None, false)
  }

  /** `CreateTaskList`: one task per issue, in order. */
  method CreateTaskList(issues: seq<Issue>, issuePrefix: string, pullPrefix: string) returns (tl: seq<Task>)
    ensures |tl| == |issues|
    ensures forall i :: 0 <= i < |issues| ==> tl[i] == IssueTask(issues[i], issuePrefix, pullPrefix)
  {
    tl := [];
    for i := 0 to |issues|
      invariant |tl| == i
      invariant forall j :: 0 <= j < i ==> tl[j] == IssueTask(issues[j], issuePrefix, pullPrefix)
    {
      var issue := issues[i];
      // The creation date `NewTask` stamps is overwritten below, so its clock reading does not matter.
      var task := NewTask(Date(0));
      var prefix := issuePrefix;
      if IsPullRequest(issue) {
        prefix := pullPrefix;
      }
      task := task.(todo := prefix + issue.title);
      task := task.(createdDate := issue.createdAt);
      if issue.dueOn.Some? {
        task := task.(dueDate := issue.dueOn);
      }
      task := task.(tags := task.tags["url" := issue.htmlUrl]);
      task := task.(tags := task.tags["state" := issue.state]);
      tl := tl + [task];
    }
  }

  /**
   * What a task made from an issue holds: the title behind the pull-request or the issue prefix,
   * the issue's creation and due dates, exactly the tags `url` and `state` (no identity tag), and
   * an open task. Its URL is the one the reconciler matches on.
   */
  lemma IssueTaskProperties(issue: Issue, issuePrefix: string, pullPrefix: string)
    ensures var t := IssueTask(issue, issuePrefix, pullPrefix);
      && t.todo == (if IsPullRequest(issue) then pullPrefix else issuePrefix) + issue.title
      && HasSuffix(t.todo, issue.title)
      && t.createdDate == issue.createdAt && t.dueDate == issue.dueOn
      && t.tags.Keys == {"url", "state"}
      && t.tags["url"] == issue.htmlUrl && t.tags["state"] == issue.state
      && "uuid" !in t.tags && "id" !in t.tags
      && !t.completed && t.completedDate.None?
      && Reconcile.Url(t) == Some(issue.htmlUrl)
  {
    var t := IssueTask(issue, issuePrefix, pullPrefix);
    var prefix := if IsPullRequest(issue) then pullPrefix else issuePrefix;
    assert t.todo[|t.todo| - |issue.title|..] == issue.title;
  }

  /** Issues with distinct addresses give a task list the reconciler can sync twice without change. */
  lemma DistinctAddressesDistinctUrls(issues: seq<Issue>, issuePrefix: string, pullPrefix: string, tl: seq<Task>)
    requires forall j, k :: 0 <= j < k < |issues| ==> issues[j].htmlUrl != issues[k].htmlUrl
    requires |tl| == |issues| && forall i :: 0 <= i < |issues| ==> tl[i] == IssueTask(issues[i], issuePrefix, pullPrefix)
    ensures Reconcile.DistinctUrls(tl)
  {
    forall i | 0 <= i < |tl| ensures Reconcile.Url(tl[i]) == Some(issues[i].htmlUrl) {
      IssueTaskProperties(issues[i], issuePrefix, pullPrefix);
    }
  }
}
