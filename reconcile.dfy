/**
 * The reconciler of `todo/sync.go`: it merges a source task list into a target list, matching
 * tasks on their `url` tag. A source task whose URL names a target task updates that task when its
 * content differs, and is skipped otherwise; a source task with a new URL is appended; a source task
 * without a URL is skipped. The clock reading stamped into the `modified` tag is a parameter.
 *
 * `SyncFold` states the behaviour the code evidently intends: updates made through the lookup are
 * visible in the returned list. `SyncAsWritten` models the Go slice semantics as written, where the
 * lookup holds pointers into the target's backing array and a reallocating `append` detaches the
 * returned list from that array.
 */
module Reconcile {
  import opened Wrappers
  import opened Tasks

  /** `SyncResult`: the three counters. */
  datatype SyncResult = SyncResult(added: nat, updated: nat, skipped: nat)

  /** The merged list together with the counters. */
  datatype SyncState = SyncState(tasks: seq<Task>, result: SyncResult)

  /** The `url` tag of a task, if it has one. */
  function Url(t: Task): Option<string> {
    Tag(t, "url")
  }

  // ---------------------------------------------------------------------------------------------
  // The lookup

  /**
   * The lookup `existingTasks` built from the target: each URL maps to the position of a target task
   * carrying it. Later tasks overwrite earlier ones, so a repeated URL maps to its last position.
   */
  function UrlIndex(s: seq<Task>): (r: map<string, nat>)
    ensures forall u :: u in r ==> r[u] < |s| && Url(s[r[u]]) == Some(u)
    decreases |s|
  {
    if |s| == 0 then map[]
    else
      var m := UrlIndex(s[..|s| - 1]);
      match Url(s[|s| - 1])
      case None => m
      case Some(u) => m[u := |s| - 1]
  }

  /** Every URL of the target is in the lookup, at its position or a later one. */
  lemma {:induction false} UrlIndexCovers(s: seq<Task>, i: int)
    requires 0 <= i < |s| && Url(s[i]).Some?
    ensures Url(s[i]).value in UrlIndex(s) && i <= UrlIndex(s)[Url(s[i]).value]
    decreases |s|
  {
    if i < |s| - 1 {
      var p := s[..|s| - 1];
      assert p[i] == s[i];
      UrlIndexCovers(p, i);
      UrlIndexGrows(s, Url(s[i]).value);
    }
  }

  /** Extending the target keeps every URL in the lookup, at the same or a later position. */
  lemma UrlIndexGrows(s: seq<Task>, u: string)
    requires |s| > 0 && u in UrlIndex(s[..|s| - 1])
    ensures u in UrlIndex(s) && UrlIndex(s[..|s| - 1])[u] <= UrlIndex(s)[u]
  {
    var m := UrlIndex(s[..|s| - 1]);
    if Url(s[|s| - 1]) != Some(u) {
      assert UrlIndex(s)[u] == m[u];
    }
  }

  /** The lookup holds the last position of each URL: the last one wins. */
  lemma UrlIndexIsLast(s: seq<Task>, u: string, i: int)
    requires 0 <= i < |s| && Url(s[i]) == Some(u)
    requires forall q :: i < q < |s| ==> Url(s[q]) != Some(u)
    ensures u in UrlIndex(s) && UrlIndex(s)[u] == i
  {
    UrlIndexCovers(s, i);
  }

  /** `u` is in the lookup exactly when some target task carries it. */
  lemma UrlIndexDomain(s: seq<Task>, u: string)
    ensures u in UrlIndex(s) <==> exists i :: 0 <= i < |s| && Url(s[i]) == Some(u)
  {
    if exists i :: 0 <= i < |s| && Url(s[i]) == Some(u) {
      var i :| 0 <= i < |s| && Url(s[i]) == Some(u);
      UrlIndexCovers(s, i);
    }
  }

  /** Building the lookup by a loop over the target, as the code does. */
  method IndexByUrl(target: seq<Task>) returns (existing: map<string, nat>)
    ensures existing == UrlIndex(target)
  {
    existing := map[];
    for i := 0 to |target|
      invariant existing == UrlIndex(target[..i])
    {
      assert target[..i + 1][..i] == target[..i];
      if "url" in target[i].tags {
        existing := existing[target[i].tags["url"] := i];
      }
    }
    assert target[..|target|] == target;
  }

  // ---------------------------------------------------------------------------------------------
  // Comparing and updating one task

  /**
   * `shouldUpdateTask`: the todo text differs, the due date differs, or the `t` (threshold) tag
   * differs in presence or in value, a missing tag reading as `""`. Completion is not examined.
   */
  predicate ShouldUpdateTask(existing: Task, source: Task) {
    || existing.todo != source.todo
    || existing.dueDate != source.dueDate
    || ("t" in existing.tags) != ("t" in source.tags)
    || TagOrEmpty(existing, "t") != TagOrEmpty(source, "t")
  }

  /** The comparison is a difference of todo text, due date, or the `t` tag taken as an optional value. */
  lemma ShouldUpdateIff(existing: Task, source: Task)
    ensures ShouldUpdateTask(existing, source) <==>
      existing.todo != source.todo || existing.dueDate != source.dueDate || Tag(existing, "t") != Tag(source, "t")
  {
  }

  /** The comparison ignores the completion state, the priority and every tag but `t`. */
  lemma ShouldUpdateIgnoresCompletion(existing: Task, other: Task, source: Task)
    requires other.todo == existing.todo && other.dueDate == existing.dueDate && Tag(other, "t") == Tag(existing, "t")
    ensures ShouldUpdateTask(other, source) == ShouldUpdateTask(existing, source)
  {
    ShouldUpdateIff(existing, source);
    ShouldUpdateIff(other, source);
  }

  /** The tags after an update: the source's tags, `uuid` set to the old `uuid` (or `""`), `modified` set to the stamp. */
  function UpdatedTags(existing: Task, source: Task, stamp: string): map<string, string> {
    source.tags["uuid" := TagOrEmpty(existing, "uuid")]["modified" := stamp]
  }

  /**
   * The task after `updateTaskContent`: todo text, due date, projects and contexts from the source,
   * the tags as `UpdatedTags` says, and completion, completion date, priority and creation date kept.
   */
  function UpdatedTask(existing: Task, source: Task, stamp: string): Task {
    Task(source.todo, existing.priority, source.projects, source.contexts,
         UpdatedTags(existing, source, stamp),
         existing.createdDate, source.dueDate, existing.completedDate, existing.completed)
  }

  /** `updateTaskContent`, step by step: copy the fields, rebuild the tag map from the source, restore completion, stamp. */
  method UpdateTaskContent(existing: Task, source: Task, stamp: string) returns (t: Task)
    ensures t == UpdatedTask(existing, source, stamp)
  {
    var wasCompleted := existing.completed;
    var completedDate := existing.completedDate;
    t := existing;
    t := t.(todo := source.todo);
    t := t.(dueDate := source.dueDate);
    t := t.(projects := source.projects);
    t := t.(contexts := source.contexts);
    var uuid := TagOrEmpty(existing, "uuid");
    var tags: map<string, string> := map[];
    var remaining := source.tags.Keys;
    while remaining != {}
      invariant remaining <= source.tags.Keys
      invariant tags == source.tags - remaining
      decreases remaining
    {
      var k :| k in remaining;
      tags := tags[k := source.tags[k]];
      remaining := remaining - {k};
    }
    assert source.tags - {} == source.tags;
    tags := tags["uuid" := uuid];
    t := t.(tags := tags);
    t := t.(completed := wasCompleted);
    t := t.(completedDate := completedDate);
    t := t.(tags := t.tags["modified" := stamp]);
  }

  /** What an update keeps and what it copies; every source tag but `uuid` and `modified` comes over unchanged. */
  lemma UpdatedTaskProperties(existing: Task, source: Task, stamp: string)
    ensures var t := UpdatedTask(existing, source, stamp);
      && t.completed == existing.completed && t.completedDate == existing.completedDate
      && t.todo == source.todo && t.dueDate == source.dueDate
      && t.projects == source.projects && t.contexts == source.contexts
      && t.tags.Keys == source.tags.Keys + {"uuid", "modified"}
      && (forall k :: k in source.tags && k != "uuid" && k != "modified" ==> t.tags[k] == source.tags[k])
      && t.tags["uuid"] == TagOrEmpty(existing, "uuid")
      && t.tags["modified"] == stamp
  {
  }

  /** After an update, the same source task no longer calls for one. */
  lemma UpdatedTaskSettled(existing: Task, source: Task, stamp: string)
    ensures !ShouldUpdateTask(UpdatedTask(existing, source, stamp), source)
  {
    var t := UpdatedTask(existing, source, stamp);
    assert ("t" in t.tags) == ("t" in source.tags);
    assert "t" in source.tags ==> t.tags["t"] == source.tags["t"];
  }

  /** An update keeps the URL: it copies the source's, which is the one it was matched on. */
  lemma UpdatedTaskUrl(existing: Task, source: Task, stamp: string)
    ensures Url(UpdatedTask(existing, source, stamp)) == Url(source)
  {
    var t := UpdatedTask(existing, source, stamp);
    assert ("url" in t.tags) == ("url" in source.tags);
  }

  /** The short identity tag `id` is not carried over: it survives an update only if the source has one. */
  lemma UpdateDropsShortId(existing: Task, source: Task, stamp: string)
    requires "id" !in source.tags
    ensures "id" !in UpdatedTask(existing, source, stamp).tags
    ensures "uuid" !in existing.tags ==> UpdatedTask(existing, source, stamp).tags["uuid"] == ""
  {
  }

  // ---------------------------------------------------------------------------------------------
  // The merge

  /** Every lookup entry names a position below `n`. */
  predicate ValidLookup(lookup: map<string, nat>, n: nat) {
    forall u :: u in lookup ==> lookup[u] < n
  }

  /** One iteration of the source loop: skip a task without a URL, update or skip a known one, append a new one. */
  function Step(st: SyncState, lookup: map<string, nat>, s: Task, stamp: string): (r: SyncState)
    requires ValidLookup(lookup, |st.tasks|)
  {
    var c := st.result;
    match Url(s)
    case None => SyncState(st.tasks, SyncResult(c.added, c.updated, c.skipped + 1))
    case Some(u) =>
      if u in lookup then
        var i := lookup[u];
        if ShouldUpdateTask(st.tasks[i], s) then
          SyncState(st.tasks[i := UpdatedTask(st.tasks[i], s, stamp)], SyncResult(c.added, c.updated + 1, c.skipped))
        else
          SyncState(st.tasks, SyncResult(c.added, c.updated, c.skipped + 1))
      else
        SyncState(st.tasks + [s], SyncResult(c.added + 1, c.updated, c.skipped))
  }

  /**
   * The source loop over `source`, in order, starting from the target: every source task is counted
   * exactly once, and the list grows by one task for each one added.
   */
  function SyncFold(target: seq<Task>, lookup: map<string, nat>, source: seq<Task>, stamp: string): (r: SyncState)
    requires ValidLookup(lookup, |target|)
    ensures |r.tasks| == |target| + r.result.added
    ensures r.result.added + r.result.updated + r.result.skipped == |source|
    decreases |source|
  {
    if |source| == 0 then SyncState(target, SyncResult(0, 0, 0))
    else Step(SyncFold(target, lookup, source[..|source| - 1], stamp), lookup, source[|source| - 1], stamp)
  }

  /** `SyncTaskLists` as intended: the lookup from the target, then the source loop. */
  function Sync(target: seq<Task>, source: seq<Task>, stamp: string): SyncState {
    SyncFold(target, UrlIndex(target), source, stamp)
  }

  /** One more source task is one more step. */
  lemma FoldSnoc(target: seq<Task>, lookup: map<string, nat>, source: seq<Task>, k: int, stamp: string)
    requires ValidLookup(lookup, |target|) && 0 <= k < |source|
    ensures SyncFold(target, lookup, source[..k + 1], stamp) ==
      Step(SyncFold(target, lookup, source[..k], stamp), lookup, source[k], stamp)
  {
    assert source[..k + 1][..k] == source[..k];
  }

  /** `SyncTaskLists`: build the lookup, then process the source tasks one by one, counting. */
  method SyncTaskLists(target: seq<Task>, source: seq<Task>, stamp: string) returns (merged: seq<Task>, result: SyncResult)
    ensures SyncState(merged, result) == Sync(target, source, stamp)
  {
    var existing := IndexByUrl(target);
    merged := target;
    var added, updated, skipped := 0, 0, 0;
    for k := 0 to |source|
      invariant SyncState(merged, SyncResult(added, updated, skipped)) == SyncFold(target, existing, source[..k], stamp)
    {
      FoldSnoc(target, existing, source, k, stamp);
      ghost var st := SyncState(merged, SyncResult(added, updated, skipped));
      var s := source[k];
      if "url" !in s.tags {
        skipped := skipped + 1;
      } else {
        var url := s.tags["url"];
        if url in existing {
          var i := existing[url];
          if ShouldUpdateTask(merged[i], s) {
            var t := UpdateTaskContent(merged[i], s, stamp);
            merged := merged[i := t];
            updated := updated + 1;
          } else {
            skipped := skipped + 1;
          }
        } else {
          merged := merged + [s];
          added := added + 1;
        }
      }
      assert SyncState(merged, SyncResult(added, updated, skipped)) == Step(st, existing, s, stamp);
    }
    assert source[..|source|] == source;
    result := SyncResult(added, updated, skipped);
  }

  // ---------------------------------------------------------------------------------------------
  // What the merge does to the target part and what it appends

  /** The source tasks the loop appends: those with a URL the lookup does not know, in source order. */
  function AddedTasks(lookup: map<string, nat>, source: seq<Task>): (r: seq<Task>)
    ensures |r| <= |source|
    ensures forall p :: 0 <= p < |r| ==> Url(r[p]).Some? && Url(r[p]).value !in lookup
    decreases |source|
  {
    if |source| == 0 then []
    else
      var s := source[|source| - 1];
      AddedTasks(lookup, source[..|source| - 1]) + (if Url(s).Some? && Url(s).value !in lookup then [s] else [])
  }

  /** A step leaves the tail beyond the target alone, apart from appending the new task. */
  lemma StepTail(st: SyncState, lookup: map<string, nat>, s: Task, stamp: string, n: nat)
    requires ValidLookup(lookup, n) && n <= |st.tasks|
    ensures Step(st, lookup, s, stamp).tasks[n..] ==
      st.tasks[n..] + (if Url(s).Some? && Url(s).value !in lookup then [s] else [])
  {
    var r := Step(st, lookup, s, stamp);
    if Url(s).Some? && Url(s).value in lookup {
      assert r.tasks[n..] == st.tasks[n..];
    } else if Url(s).Some? {
      assert (st.tasks + [s])[n..] == st.tasks[n..] + [s];
    }
  }

  /** Behind the target come exactly the added tasks, in source order. */
  lemma {:induction false} SyncAppendsNew(target: seq<Task>, lookup: map<string, nat>, source: seq<Task>, stamp: string)
    requires ValidLookup(lookup, |target|)
    ensures SyncFold(target, lookup, source, stamp).tasks[|target|..] == AddedTasks(lookup, source)
    decreases |source|
  {
    if |source| > 0 {
      var pre := source[..|source| - 1];
      SyncAppendsNew(target, lookup, pre, stamp);
      StepTail(SyncFold(target, lookup, pre, stamp), lookup, source[|source| - 1], stamp, |target|);
    }
  }

  /** Every lookup entry names a target task carrying that URL, as `UrlIndex` guarantees. */
  predicate ConsistentLookup(lookup: map<string, nat>, target: seq<Task>) {
    forall u :: u in lookup ==> lookup[u] < |target| && Url(target[lookup[u]]) == Some(u)
  }

  /**
   * What the merge keeps of the target: position `i` keeps its URL and its completion state and
   * date, and a position the lookup does not name (no URL, or an earlier duplicate) keeps the task.
   */
  predicate KeepsTarget(target: seq<Task>, lookup: map<string, nat>, m: seq<Task>) {
    && |m| >= |target|
    && (forall i :: 0 <= i < |target| ==>
          && Url(m[i]) == Url(target[i])
          && m[i].completed == target[i].completed
          && m[i].completedDate == target[i].completedDate)
    && (forall i :: 0 <= i < |target| && i !in lookup.Values ==> m[i] == target[i])
  }

  lemma StepKeepsTarget(target: seq<Task>, lookup: map<string, nat>, st: SyncState, s: Task, stamp: string)
    requires ConsistentLookup(lookup, target) && KeepsTarget(target, lookup, st.tasks)
    ensures ValidLookup(lookup, |st.tasks|)
    ensures KeepsTarget(target, lookup, Step(st, lookup, s, stamp).tasks)
  {
    var r := Step(st, lookup, s, stamp).tasks;
    if Url(s).Some? && Url(s).value in lookup {
      var i := lookup[Url(s).value];
      assert i in lookup.Values;
      UpdatedTaskUrl(st.tasks[i], s, stamp);
      assert forall j :: 0 <= j < |target| && j != i ==> r[j] == st.tasks[j];
    } else if Url(s).Some? {
      assert forall j :: 0 <= j < |target| ==> r[j] == st.tasks[j];
    }
  }

  /** The merge changes target tasks only where the lookup points, and keeps their URL and completion. */
  lemma {:induction false} SyncKeepsTarget(target: seq<Task>, lookup: map<string, nat>, source: seq<Task>, stamp: string)
    requires ConsistentLookup(lookup, target)
    ensures KeepsTarget(target, lookup, SyncFold(target, lookup, source, stamp).tasks)
    decreases |source|
  {
    if |source| > 0 {
      var pre := source[..|source| - 1];
      SyncKeepsTarget(target, lookup, pre, stamp);
      StepKeepsTarget(target, lookup, SyncFold(target, lookup, pre, stamp), source[|source| - 1], stamp);
    }
  }

  /**
   * The public statement for `SyncTaskLists`: the target part keeps its URLs and completion, only
   * positions holding the last occurrence of a URL can change, and behind the target come the new
   * tasks in source order.
   */
  lemma SyncShape(target: seq<Task>, source: seq<Task>, stamp: string)
    ensures var r := Sync(target, source, stamp);
      && KeepsTarget(target, UrlIndex(target), r.tasks)
      && r.tasks[|target|..] == AddedTasks(UrlIndex(target), source)
      && |r.tasks| == |target| + r.result.added
  {
    SyncKeepsTarget(target, UrlIndex(target), source, stamp);
    SyncAppendsNew(target, UrlIndex(target), source, stamp);
  }

  /** A source task without a URL is counted as skipped and changes nothing. */
  lemma SyncSkipsWithoutUrl(target: seq<Task>, source: seq<Task>, s: Task, stamp: string)
    requires "url" !in s.tags
    ensures var before := Sync(target, source, stamp);
      var after := Sync(target, source + [s], stamp);
      after.tasks == before.tasks && after.result == SyncResult(before.result.added, before.result.updated, before.result.skipped + 1)
  {
    assert (source + [s])[..|source|] == source;
  }

  /** A known URL whose task needs no update is counted as skipped and changes nothing. */
  lemma SyncSkipsUnchanged(target: seq<Task>, source: seq<Task>, s: Task, stamp: string)
    requires Url(s).Some? && Url(s).value in UrlIndex(target)
    requires !ShouldUpdateTask(Sync(target, source, stamp).tasks[UrlIndex(target)[Url(s).value]], s)
    ensures var before := Sync(target, source, stamp);
      var after := Sync(target, source + [s], stamp);
      after.tasks == before.tasks && after.result == SyncResult(before.result.added, before.result.updated, before.result.skipped + 1)
  {
    assert (source + [s])[..|source|] == source;
  }

  lemma {:induction false} EmptyLookupNoUpdates(target: seq<Task>, source: seq<Task>, stamp: string)
    ensures SyncFold(target, map[], source, stamp).result.updated == 0
    decreases |source|
  {
    if |source| > 0 {
      EmptyLookupNoUpdates(target, source[..|source| - 1], stamp);
    }
  }

  /** Into an empty list every source task with a URL is appended and none is updated. */
  lemma SyncIntoEmpty(source: seq<Task>, stamp: string)
    ensures Sync([], source, stamp).tasks == AddedTasks(map[], source)
    ensures Sync([], source, stamp).result.updated == 0
  {
    SyncAppendsNew([], map[], source, stamp);
    EmptyLookupNoUpdates([], source, stamp);
  }

  /** A URL repeated in the source is appended twice: the lookup only ever holds target tasks. */
  lemma RepeatedNewUrlAppendedTwice(s: Task, stamp: string)
    requires "url" in s.tags
    ensures Sync([], [s, s], stamp).tasks == [s, s]
    ensures Sync([], [s, s], stamp).result == SyncResult(2, 0, 0)
  {
    assert UrlIndex([]) == map[];
    assert [s][..0] == [];
    assert SyncFold([], map[], [s], stamp) == SyncState([s], SyncResult(1, 0, 0));
    assert [s, s][..1] == [s];
  }

  // ---------------------------------------------------------------------------------------------
  // Syncing the same source twice

  /** No two source tasks share a URL. */
  predicate DistinctUrls(source: seq<Task>) {
    forall j, k :: 0 <= j < k < |source| && Url(source[j]).Some? ==> Url(source[j]) != Url(source[k])
  }

  /** Every source task with a URL is known to the lookup and its task needs no update. */
  predicate Settled(m: seq<Task>, lookup: map<string, nat>, source: seq<Task>) {
    forall j :: 0 <= j < |source| && Url(source[j]).Some? ==>
      && Url(source[j]).value in lookup
      && lookup[Url(source[j]).value] < |m|
      && !ShouldUpdateTask(m[lookup[Url(source[j]).value]], source[j])
  }

  /** Against a settled list the loop only skips. */
  lemma {:induction false} SettledFold(m: seq<Task>, lookup: map<string, nat>, source: seq<Task>, stamp: string)
    requires ValidLookup(lookup, |m|) && Settled(m, lookup, source)
    ensures SyncFold(m, lookup, source, stamp) == SyncState(m, SyncResult(0, 0, |source|))
    decreases |source|
  {
    if |source| > 0 {
      var pre := source[..|source| - 1];
      assert forall j :: 0 <= j < |pre| ==> pre[j] == source[j];
      SettledFold(m, lookup, pre, stamp);
    }
  }

  /** The tail beyond the target carries only URLs the lookup does not know. */
  predicate NewUrlsBehind(n: nat, lookup: map<string, nat>, m: seq<Task>) {
    forall p :: n <= p < |m| ==> Url(m[p]).Some? && Url(m[p]).value !in lookup
  }

  /** Source tasks with a known URL have left their target task needing no update. */
  predicate KnownSettled(lookup: map<string, nat>, source: seq<Task>, m: seq<Task>) {
    forall j :: 0 <= j < |source| && Url(source[j]).Some? && Url(source[j]).value in lookup ==>
      lookup[Url(source[j]).value] < |m| && !ShouldUpdateTask(m[lookup[Url(source[j]).value]], source[j])
  }

  /** Source tasks with a new URL sit in the tail, as the last task carrying that URL. */
  predicate NewLast(n: nat, lookup: map<string, nat>, source: seq<Task>, m: seq<Task>) {
    forall j :: 0 <= j < |source| && Url(source[j]).Some? && Url(source[j]).value !in lookup ==>
      exists p :: n <= p < |m| && m[p] == source[j] && forall q :: p < q < |m| ==> Url(m[q]) != Url(source[j])
  }

  predicate FirstPass(n: nat, lookup: map<string, nat>, source: seq<Task>, m: seq<Task>) {
    NewUrlsBehind(n, lookup, m) && KnownSettled(lookup, source, m) && NewLast(n, lookup, source, m)
  }

  /** A step on a known URL keeps the first-pass facts. */
  lemma StepKnown(target: seq<Task>, lookup: map<string, nat>, pre: seq<Task>, s: Task, st: SyncState, stamp: string)
    requires ConsistentLookup(lookup, target) && |st.tasks| >= |target| && DistinctUrls(pre + [s])
    requires Url(s).Some? && Url(s).value in lookup
    requires FirstPass(|target|, lookup, pre, st.tasks)
    ensures FirstPass(|target|, lookup, pre + [s], Step(st, lookup, s, stamp).tasks)
  {
    var m := st.tasks;
    var src := pre + [s];
    var i := lookup[Url(s).value];
    var r := Step(st, lookup, s, stamp).tasks;
    assert |r| == |m| && forall q :: 0 <= q < |m| && q != i ==> r[q] == m[q];
    if ShouldUpdateTask(m[i], s) {
      UpdatedTaskSettled(m[i], s, stamp);
    }
    assert !ShouldUpdateTask(r[i], s);
    forall j | 0 <= j < |src| && Url(src[j]).Some? && Url(src[j]).value in lookup
      ensures lookup[Url(src[j]).value] < |r| && !ShouldUpdateTask(r[lookup[Url(src[j]).value]], src[j])
    {
      if j < |pre| {
        assert src[j] == pre[j] && src[|pre|] == s;
        assert Url(pre[j]) != Url(s);
        assert lookup[Url(src[j]).value] != i;
      }
    }
    forall j | 0 <= j < |src| && Url(src[j]).Some? && Url(src[j]).value !in lookup
      ensures exists p :: |target| <= p < |r| && r[p] == src[j] && forall q :: p < q < |r| ==> Url(r[q]) != Url(src[j])
    {
      assert src[j] == pre[j];
      var p :| |target| <= p < |m| && m[p] == pre[j] && forall q :: p < q < |m| ==> Url(m[q]) != Url(pre[j]);
      assert r[p] == src[j];
    }
  }

  /** A step on a new URL keeps the first-pass facts. */
  lemma StepNew(target: seq<Task>, lookup: map<string, nat>, pre: seq<Task>, s: Task, st: SyncState, stamp: string)
    requires ConsistentLookup(lookup, target) && |st.tasks| >= |target| && DistinctUrls(pre + [s])
    requires Url(s).Some? && Url(s).value !in lookup
    requires FirstPass(|target|, lookup, pre, st.tasks)
    ensures FirstPass(|target|, lookup, pre + [s], Step(st, lookup, s, stamp).tasks)
  {
    var m := st.tasks;
    var src := pre + [s];
    var r := Step(st, lookup, s, stamp).tasks;
    assert r == m + [s];
    forall j | 0 <= j < |src| && Url(src[j]).Some? && Url(src[j]).value in lookup
      ensures lookup[Url(src[j]).value] < |r| && !ShouldUpdateTask(r[lookup[Url(src[j]).value]], src[j])
    {
      assert src[j] == pre[j];
    }
    forall j | 0 <= j < |src| && Url(src[j]).Some? && Url(src[j]).value !in lookup
      ensures exists p :: |target| <= p < |r| && r[p] == src[j] && forall q :: p < q < |r| ==> Url(r[q]) != Url(src[j])
    {
      if j < |pre| {
        assert src[j] == pre[j] && src[|pre|] == s;
        assert Url(pre[j]) != Url(s);
        var p :| |target| <= p < |m| && m[p] == pre[j] && forall q :: p < q < |m| ==> Url(m[q]) != Url(pre[j]);
        assert r[p] == src[j];
      } else {
        assert r[|m|] == src[j];
      }
    }
  }

  lemma StepFirstPass(target: seq<Task>, lookup: map<string, nat>, pre: seq<Task>, s: Task, st: SyncState, stamp: string)
    requires ConsistentLookup(lookup, target) && |st.tasks| >= |target| && DistinctUrls(pre + [s])
    requires FirstPass(|target|, lookup, pre, st.tasks)
    ensures FirstPass(|target|, lookup, pre + [s], Step(st, lookup, s, stamp).tasks)
  {
    if Url(s).None? {
      var src := pre + [s];
      assert forall j :: 0 <= j < |pre| ==> src[j] == pre[j];
    } else if Url(s).value in lookup {
      StepKnown(target, lookup, pre, s, st, stamp);
    } else {
      StepNew(target, lookup, pre, s, st, stamp);
    }
  }

  lemma {:induction false} SyncFirstPass(target: seq<Task>, lookup: map<string, nat>, source: seq<Task>, stamp: string)
    requires ConsistentLookup(lookup, target) && DistinctUrls(source)
    ensures FirstPass(|target|, lookup, source, SyncFold(target, lookup, source, stamp).tasks)
    decreases |source|
  {
    if |source| > 0 {
      var pre := source[..|source| - 1];
      assert source == pre + [source[|source| - 1]];
      SyncFirstPass(target, lookup, pre, stamp);
      StepFirstPass(target, lookup, pre, source[|source| - 1], SyncFold(target, lookup, pre, stamp), stamp);
    }
  }

  /** After the first merge, a source task's URL is looked up at the task it went into, and that task needs no update. */
  lemma SettledAt(target: seq<Task>, source: seq<Task>, m: seq<Task>, j: int)
    requires KeepsTarget(target, UrlIndex(target), m)
    requires FirstPass(|target|, UrlIndex(target), source, m)
    requires 0 <= j < |source| && Url(source[j]).Some?
    ensures var u := Url(source[j]).value;
      u in UrlIndex(m) && UrlIndex(m)[u] < |m| && !ShouldUpdateTask(m[UrlIndex(m)[u]], source[j])
  {
    var lookup := UrlIndex(target);
    var u := Url(source[j]).value;
    if u in lookup {
      var i := lookup[u];
      forall q | i < q < |m| ensures Url(m[q]) != Some(u) {
        if q < |target| && Url(target[q]) == Some(u) {
          UrlIndexCovers(target, q);
        }
      }
      UrlIndexIsLast(m, u, i);
    } else {
      var p :| |target| <= p < |m| && m[p] == source[j] && forall q :: p < q < |m| ==> Url(m[q]) != Url(source[j]);
      UrlIndexIsLast(m, u, p);
    }
  }

  /**
   * Syncing the same source again, whatever the new clock reading, adds nothing, updates nothing
   * and leaves the merged list as it is, provided no two source tasks share a URL.
   */
  lemma ResyncChangesNothing(target: seq<Task>, source: seq<Task>, stamp: string, stamp2: string)
    requires DistinctUrls(source)
    ensures var m := Sync(target, source, stamp).tasks;
      Sync(m, source, stamp2) == SyncState(m, SyncResult(0, 0, |source|))
  {
    var lookup := UrlIndex(target);
    var m := Sync(target, source, stamp).tasks;
    SyncKeepsTarget(target, lookup, source, stamp);
    SyncFirstPass(target, lookup, source, stamp);
    forall j | 0 <= j < |source| && Url(source[j]).Some?
      ensures var u := Url(source[j]).value;
        u in UrlIndex(m) && UrlIndex(m)[u] < |m| && !ShouldUpdateTask(m[UrlIndex(m)[u]], source[j])
    {
      SettledAt(target, source, m, j);
    }
    SettledFold(m, UrlIndex(m), source, stamp2);
  }

  // ---------------------------------------------------------------------------------------------
  // The merge as written: pointers into the target's backing array

  /**
   * The Go slices during the loop. `live` is the target part of the backing array the lookup's
   * pointers address, which every update writes. `appended` are the tasks added so far. `spare` is
   * the unused capacity of that array. Once an `append` finds no spare room, Go copies the slice into
   * a new array: `detached` then holds the target part as it was at that moment, and later updates
   * through the pointers no longer reach the returned list.
   */
  datatype Slices = Slices(live: seq<Task>, detached: Option<seq<Task>>, appended: seq<Task>, spare: nat, result: SyncResult)

  /** One iteration of the loop on Go slices. */
  function AliasedStep(st: Slices, lookup: map<string, nat>, s: Task, stamp: string): Slices
    requires ValidLookup(lookup, |st.live|)
  {
    var c := st.result;
    match Url(s)
    case None => Slices(st.live, st.detached, st.appended, st.spare, SyncResult(c.added, c.updated, c.skipped + 1))
    case Some(u) =>
      if u in lookup then
        var i := lookup[u];
        if ShouldUpdateTask(st.live[i], s) then
          Slices(st.live[i := UpdatedTask(st.live[i], s, stamp)], st.detached, st.appended, st.spare,
                 SyncResult(c.added, c.updated + 1, c.skipped))
        else
          Slices(st.live, st.detached, st.appended, st.spare, SyncResult(c.added, c.updated, c.skipped + 1))
      else if st.detached.None? && st.spare == 0 then
        Slices(st.live, Some(st.live), st.appended + [s], 0, SyncResult(c.added + 1, c.updated, c.skipped))
      else if st.detached.None? then
        Slices(st.live, None, st.appended + [s], st.spare - 1, SyncResult(c.added + 1, c.updated, c.skipped))
      else
        Slices(st.live, st.detached, st.appended + [s], st.spare, SyncResult(c.added + 1, c.updated, c.skipped))
  }

  function AliasedFold(target: seq<Task>, lookup: map<string, nat>, source: seq<Task>, spare: nat, stamp: string): (r: Slices)
    requires ValidLookup(lookup, |target|)
    ensures |r.live| == |target|
    ensures r.detached.Some? ==> |r.detached.value| == |target|
    decreases |source|
  {
    if |source| == 0 then Slices(target, None, [], spare, SyncResult(0, 0, 0))
    else AliasedStep(AliasedFold(target, lookup, source[..|source| - 1], spare, stamp), lookup, source[|source| - 1], stamp)
  }

  /**
   * `SyncTaskLists` as written, for a target slice with `spare` unused capacity: the returned slice
   * is the detached copy, if an `append` reallocated, followed by the appended tasks.
   */
  function SyncAsWritten(target: seq<Task>, spare: nat, source: seq<Task>, stamp: string): SyncState {
    var st := AliasedFold(target, UrlIndex(target), source, spare, stamp);
    SyncState(st.detached.GetOr(st.live) + st.appended, st.result)
  }

  /**
   * The code as written makes the same decisions as the intended merge: the pointer-visible array
   * always equals the intended target part, the counters agree, and the copy is taken exactly when
   * more tasks are added than there is spare capacity.
   */
  lemma {:induction false} AliasedTracksIntended(target: seq<Task>, lookup: map<string, nat>, source: seq<Task>, spare: nat, stamp: string)
    requires ValidLookup(lookup, |target|)
    ensures var a := AliasedFold(target, lookup, source, spare, stamp);
      var f := SyncFold(target, lookup, source, stamp);
      && a.live + a.appended == f.tasks
      && a.result == f.result
      && (a.detached.None? <==> f.result.added <= spare)
      && (a.detached.None? ==> a.spare + f.result.added == spare)
    decreases |source|
  {
    if |source| > 0 {
      var pre := source[..|source| - 1];
      AliasedTracksIntended(target, lookup, pre, spare, stamp);
      AliasedStepTracks(target, lookup, AliasedFold(target, lookup, pre, spare, stamp), SyncFold(target, lookup, pre, stamp),
                        source[|source| - 1], spare, stamp);
    }
  }

  lemma AliasedStepTracks(target: seq<Task>, lookup: map<string, nat>, a: Slices, f: SyncState, s: Task, spare: nat, stamp: string)
    requires ValidLookup(lookup, |target|) && |a.live| == |target| && |f.tasks| >= |target|
    requires a.live + a.appended == f.tasks && a.result == f.result
    requires (a.detached.None? <==> f.result.added <= spare) && (a.detached.None? ==> a.spare + f.result.added == spare)
    ensures var a' := AliasedStep(a, lookup, s, stamp);
      var f' := Step(f, lookup, s, stamp);
      && a'.live + a'.appended == f'.tasks
      && a'.result == f'.result
      && (a'.detached.None? <==> f'.result.added <= spare)
      && (a'.detached.None? ==> a'.spare + f'.result.added == spare)
  {
    if Url(s).Some? && Url(s).value in lookup {
      var i := lookup[Url(s).value];
      assert f.tasks[i] == a.live[i];
      assert (a.live[i := UpdatedTask(a.live[i], s, stamp)]) + a.appended == f.tasks[i := UpdatedTask(f.tasks[i], s, stamp)];
    } else if Url(s).Some? {
      assert a.live + (a.appended + [s]) == f.tasks + [s];
    }
  }

  /** With spare capacity for every source task, the code as written returns the intended merge. */
  lemma AsWrittenAgreesWithCapacity(target: seq<Task>, spare: nat, source: seq<Task>, stamp: string)
    requires |source| <= spare
    ensures SyncAsWritten(target, spare, source, stamp) == Sync(target, source, stamp)
  {
    AliasedTracksIntended(target, UrlIndex(target), source, spare, stamp);
  }

  /** Whatever the capacity, the counters and the appended tasks as written are the intended ones. */
  lemma AsWrittenCountsAgree(target: seq<Task>, spare: nat, source: seq<Task>, stamp: string)
    ensures var w := SyncAsWritten(target, spare, source, stamp);
      var r := Sync(target, source, stamp);
      w.result == r.result && |w.tasks| == |r.tasks| && w.tasks[|target|..] == r.tasks[|target|..]
  {
    var a := AliasedFold(target, UrlIndex(target), source, spare, stamp);
    AliasedTracksIntended(target, UrlIndex(target), source, spare, stamp);
    assert (a.detached.GetOr(a.live) + a.appended)[|target|..] == a.appended;
    assert (a.live + a.appended)[|target|..] == a.appended;
  }

  /** A target task whose only tag is its URL `u`. */
  function Issue(todo: string, u: string): Task {
    Task(todo, "", [], [], map["url" := u], None, None, None, false)
  }

  /** The lookup of the one-task target at `u1`. */
  lemma IssueLookup()
    ensures UrlIndex([Issue("old", "u1")]) == map["u1" := 0]
  {
    var target := [Issue("old", "u1")];
    assert UrlIndex([]) == map[];
    assert target[..0] == [];
  }

  lemma DistinctTestUrls()
    ensures Url(Issue("new", "u2")) == Some("u2") && Url(Issue("changed", "u1")) == Some("u1")
    ensures "u2" !in map["u1" := 0] && "u1" in map["u1" := 0]
  {
    assert "u2"[1] != "u1"[1];
  }

  /** As written: the new task at `u2` finds no spare room, so the slice is copied before the update. */
  lemma AliasedFirstStep(stamp: string)
    ensures AliasedFold([Issue("old", "u1")], map["u1" := 0], [Issue("new", "u2")], 0, stamp) ==
      Slices([Issue("old", "u1")], Some([Issue("old", "u1")]), [Issue("new", "u2")], 0, SyncResult(1, 0, 0))
  {
    DistinctTestUrls();
    var target, lookup, b := [Issue("old", "u1")], map["u1" := 0], Issue("new", "u2");
    assert [b][..0] == [];
    var zero := AliasedFold(target, lookup, [], 0, stamp);
    assert zero == Slices(target, None, [], 0, SyncResult(0, 0, 0));
  }

  /** As written: the update then goes to the old array, which the returned slice no longer shares. */
  lemma AliasedSecondStep(stamp: string)
    ensures var a := AliasedFold([Issue("old", "u1")], map["u1" := 0], [Issue("new", "u2"), Issue("changed", "u1")], 0, stamp);
      a.detached == Some([Issue("old", "u1")]) && a.appended == [Issue("new", "u2")] && a.result == SyncResult(1, 1, 0)
  {
    DistinctTestUrls();
    var target, lookup, b, c := [Issue("old", "u1")], map["u1" := 0], Issue("new", "u2"), Issue("changed", "u1");
    assert [b, c][..1] == [b];
    AliasedFirstStep(stamp);
    assert ShouldUpdateTask(target[0], c);
  }

  /** As intended: the update lands in the returned list. */
  lemma IntendedSecondStep(stamp: string)
    ensures SyncFold([Issue("old", "u1")], map["u1" := 0], [Issue("new", "u2"), Issue("changed", "u1")], stamp).tasks[0].todo == "changed"
  {
    DistinctTestUrls();
    var target, lookup, b, c := [Issue("old", "u1")], map["u1" := 0], Issue("new", "u2"), Issue("changed", "u1");
    assert [b, c][..1] == [b];
    assert [b][..0] == [];
    var f0 := SyncFold(target, lookup, [], stamp);
    var f1 := SyncFold(target, lookup, [b], stamp);
    assert f1 == Step(f0, lookup, b, stamp);
    assert f1.tasks == [target[0], b];
    assert ShouldUpdateTask(f1.tasks[0], c);
  }

  /**
   * A full target slice (no spare capacity) holding one task at `u1`, synced with a new task at
   * `u2` followed by a changed task at `u1`: the append reallocates first, so the update is counted
   * but lost from the returned list, which the intended merge keeps.
   */
  lemma AsWrittenLosesUpdate(stamp: string)
    ensures var target := [Issue("old", "u1")];
      var source := [Issue("new", "u2"), Issue("changed", "u1")];
      && SyncAsWritten(target, 0, source, stamp) == SyncState([Issue("old", "u1"), Issue("new", "u2")], SyncResult(1, 1, 0))
      && Sync(target, source, stamp).tasks[0].todo == "changed"
  {
    IssueLookup();
    AliasedSecondStep(stamp);
    IntendedSecondStep(stamp);
  }
}
