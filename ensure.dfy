/**
 * The property ensurer of `todo/taskEnsure.go`: it fills in what a task is missing, a creation
 * date, a completion date, a single identity tag in the preferred form and the configured default
 * tags. The Go functions update a task through a pointer; here each step is a method that takes the
 * task and returns it updated, the list step returns the updated list, and the clock reading and
 * the freshly generated UUID are parameters. Identity tags are read with the decoder as written,
 * `Uuid.DecodeUUIDAsWritten`, as the Go code reads them with `utils.DecodeUUID`; `CorrectedTags`
 * is the tag step with the corrected decoder.
 */
module Ensure {
  import opened Wrappers
  import opened Tasks
  import opened Uuid

  /** `TaskEnsureConfig`. */
  datatype TaskEnsureConfig = TaskEnsureConfig(
    preferShortIds: bool,
    enforceCompletionDate: bool,
    enforceCreationDate: bool,
    defaultTags: map<string, string>)

  /** `DefaultEnsureConfig`: short identifiers, both dates enforced, no default tags. */
  const DefaultEnsureConfig: TaskEnsureConfig := TaskEnsureConfig(true, true, true, map[])

  // ---------------------------------------------------------------------------------------------
  // Specification

  /**
   * The identifier the task keeps: an `id` tag the decoder as written reads, else a `uuid` tag it
   * reads, else the new one.
   */
  function ChosenId(tags: map<string, string>, newId: Uuid): Uuid {
    if "id" in tags && DecodeUUIDAsWritten(tags["id"]).Ok? then DecodeUUIDAsWritten(tags["id"]).value
    else if "uuid" in tags && DecodeUUIDAsWritten(tags["uuid"]).Ok? then DecodeUUIDAsWritten(tags["uuid"]).value
    else newId
  }

  /** The identifier chosen with the corrected decoder `DecodeUUID` in place of the one as written. */
  function CorrectedChosenId(tags: map<string, string>, newId: Uuid): Uuid {
    if "id" in tags && DecodeUUID(tags["id"]).Ok? then DecodeUUID(tags["id"]).value
    else if "uuid" in tags && DecodeUUID(tags["uuid"]).Ok? then DecodeUUID(tags["uuid"]).value
    else newId
  }

  /** The single identity tag in the preferred form: `id` with the short form, or `uuid` with the long one. */
  function IdentityTags(tags: map<string, string>, preferShort: bool, id: Uuid): map<string, string> {
    if preferShort then (tags - {"uuid"})["id" := ShortEncodeUUID(id)]
    else (tags - {"id"})["uuid" := LongEncodeUUID(id)]
  }

  /** The tags after the defaults are filled in: an existing key keeps its value, a missing default key gets its default. */
  function WithDefaults(tags: map<string, string>, defaults: map<string, string>): map<string, string> {
    defaults + tags
  }

  /** The creation date after the ensurer: the current time when it is enforced and missing. */
  function EnsuredCreatedDate(t: Task, config: TaskEnsureConfig, now: Date): Option<Date> {
    if config.enforceCreationDate && t.createdDate.None? then Some(now) else t.createdDate
  }

  /** The completion date after the ensurer: the current time for a completed task without one, when enforced. */
  function EnsuredCompletedDate(t: Task, config: TaskEnsureConfig, now: Date): Option<Date> {
    if config.enforceCompletionDate && t.completed && t.completedDate.None? then Some(now) else t.completedDate
  }

  /** The tags after the ensurer: one identity tag for the chosen identifier, then the defaults. */
  function EnsuredTags(t: Task, config: TaskEnsureConfig, newId: Uuid): map<string, string> {
    WithDefaults(IdentityTags(t.tags, config.preferShortIds, ChosenId(t.tags, newId)), config.defaultTags)
  }

  /** A task after `EnsureTaskProperties`: the same task with its two dates and its tags ensured. */
  function Ensured(t: Task, config: TaskEnsureConfig, now: Date, newId: Uuid): Task {
    Task(t.todo, t.priority, t.projects, t.contexts,
         EnsuredTags(t, config, newId),
         EnsuredCreatedDate(t, config, now),
         t.dueDate,
         EnsuredCompletedDate(t, config, now),
         t.completed)
  }

  // ---------------------------------------------------------------------------------------------
  // Operations

  /** `ensureCreationDate`: a task without a creation date gets the current time; a date it has is kept. */
  method EnsureCreationDate(task: Task, now: Date) returns (t: Task)
    ensures task.createdDate.None? ==> t == task.(createdDate := Some(now))
    ensures task.createdDate.Some? ==> t == task
  {
    t := task;
    if t.createdDate.None? {
      t := t.(createdDate := Some(now));
    }
  }

  /** `ensureCompletionDate`: the completion date becomes the current time; its caller checks it was missing. */
  method EnsureCompletionDate(task: Task, now: Date) returns (t: Task)
    ensures t == task.(completedDate := Some(now))
  {
    t := task.(completedDate := Some(now));
  }

  /** `ensureIdentifier`: choose the identifier, then leave exactly one identity tag, in the preferred form. */
  method EnsureIdentifier(task: Task, preferShort: bool, newId: Uuid) returns (t: Task, id: Uuid)
    ensures id == ChosenId(task.tags, newId)
    ensures t == task.(tags := IdentityTags(task.tags, preferShort, id))
  {
    var tags := task.tags;
    id := newId;
    if "uuid" in tags {
      var parsed := DecodeUUIDAsWritten(tags["uuid"]);
      if parsed.Ok? {
        id := parsed.value;
        tags := tags - {"uuid"};
      }
    }
    assert SameButUuid(tags, task.tags);
    SameOutsideUuid(tags, task.tags, "id");
    if "id" in tags {
      var parsed := DecodeUUIDAsWritten(tags["id"]);
      if parsed.Ok? {
        id := parsed.value;
      }
    }
    assert id == ChosenId(task.tags, newId);
    if preferShort {
      IdentityTagsOfSameButUuid(tags, task.tags, ShortEncodeUUID(id));
      tags := tags["id" := ShortEncodeUUID(id)];
      tags := tags - {"uuid"};
    } else {
      IdentityTagsOfSameButUuid(tags, task.tags, LongEncodeUUID(id));
      tags := tags["uuid" := LongEncodeUUID(id)];
      tags := tags - {"id"};
    }
    t := task.(tags := tags);
  }

  /** Two tag maps that differ at most in their `uuid` entry. */
  predicate SameButUuid(a: map<string, string>, b: map<string, string>) {
    a - {"uuid"} == b - {"uuid"} && ("uuid" in a ==> "uuid" in b && a["uuid"] == b["uuid"])
  }

  lemma SameOutsideUuid(x: map<string, string>, tags: map<string, string>, k: string)
    requires SameButUuid(x, tags) && k != "uuid"
    ensures k in x <==> k in tags
    ensures k in x ==> x[k] == tags[k]
  {
    assert k in x <==> k in x - {"uuid"};
    assert k in tags <==> k in tags - {"uuid"};
    if k in x {
      assert x[k] == (x - {"uuid"})[k];
      assert tags[k] == (tags - {"uuid"})[k];
    }
  }

  /** Setting one identity tag and deleting the other gives the same map from `x` as from `tags`. */
  lemma IdentityTagsOfSameButUuid(x: map<string, string>, tags: map<string, string>, v: string)
    requires SameButUuid(x, tags)
    ensures x["id" := v] - {"uuid"} == (tags - {"uuid"})["id" := v]
    ensures x["uuid" := v] - {"id"} == (tags - {"id"})["uuid" := v]
  {
    forall k | k != "uuid" {
      SameOutsideUuid(x, tags, k);
    }
    var a, b := x["id" := v] - {"uuid"}, (tags - {"uuid"})["id" := v];
    assert a.Keys == b.Keys;
    assert a == b;
    var c, d := x["uuid" := v] - {"id"}, (tags - {"id"})["uuid" := v];
    assert c.Keys == d.Keys;
    assert c == d;
  }

  /** `ensureTags`: every default key the task lacks is added with its default value, in any order. */
  method EnsureTags(task: Task, defaults: map<string, string>) returns (t: Task)
    ensures t == task.(tags := WithDefaults(task.tags, defaults))
  {
    var tags := task.tags;
    var remaining := defaults.Keys;
    while remaining != {}
      invariant remaining <= defaults.Keys
      invariant tags == (defaults - remaining) + task.tags
      decreases remaining
    {
      var key :| key in remaining;
      if key !in tags {
        tags := tags[key := defaults[key]];
      }
      remaining := remaining - {key};
    }
    assert defaults - {} == defaults;
    t := task.(tags := tags);
  }

  /** `EnsureTaskProperties`: the four steps in order. */
  method EnsureTaskProperties(task: Task, config: TaskEnsureConfig, now: Date, newId: Uuid) returns (t: Task)
    ensures t == Ensured(task, config, now, newId)
  {
    t := task;
    if config.enforceCreationDate {
      t := EnsureCreationDate(t, now);
    }
    if config.enforceCompletionDate && t.completed && t.completedDate.None? {
      t := EnsureCompletionDate(t, now);
    }
    var id;
    t, id := EnsureIdentifier(t, config.preferShortIds, newId);
    t := EnsureTags(t, config.defaultTags);
  }

  /**
   * `EnsureTaskListProperties`: every task of the list in turn, keeping length and order. The Go
   * function updates the slice elements in place; here the list is a value updated position by
   * position and returned. `newId[i]` is the UUID generated while ensuring task `i`.
   */
  method EnsureTaskListProperties(tasks: seq<Task>, config: TaskEnsureConfig, now: Date, newId: seq<Uuid>)
    returns (r: seq<Task>)
    requires |newId| == |tasks|
    ensures |r| == |tasks|
    ensures forall i :: 0 <= i < |tasks| ==> r[i] == Ensured(tasks[i], config, now, newId[i])
  {
    r := tasks;
    for i := 0 to |tasks|
      invariant |r| == |tasks|
      invariant forall j :: 0 <= j < i ==> r[j] == Ensured(tasks[j], config, now, newId[j])
      invariant forall j :: i <= j < |tasks| ==> r[j] == tasks[j]
    {
      var t := EnsureTaskProperties(r[i], config, now, newId[i]);
      r := r[i := t];
    }
  }

  // ---------------------------------------------------------------------------------------------
  // Properties

  /** Default tags that do not name an identity tag. */
  predicate NoIdentityDefaults(config: TaskEnsureConfig) {
    "id" !in config.defaultTags && "uuid" !in config.defaultTags
  }

  /** With short identifiers the task ends with an `id` tag and no `uuid` tag; otherwise the other way round. */
  lemma SingleIdentityTag(t: Task, config: TaskEnsureConfig, now: Date, newId: Uuid)
    requires NoIdentityDefaults(config)
    ensures var e := Ensured(t, config, now, newId);
      var id := ChosenId(t.tags, newId);
      if config.preferShortIds then
        "id" in e.tags && e.tags["id"] == ShortEncodeUUID(id) && "uuid" !in e.tags
      else
        "uuid" in e.tags && e.tags["uuid"] == LongEncodeUUID(id) && "id" !in e.tags
  {
  }

  /** An identity tag the decoder as written reads is kept, and when both read, `id` wins over `uuid`. */
  lemma DecodableIdKept(tags: map<string, string>, newId: Uuid)
    ensures "id" in tags && DecodeUUIDAsWritten(tags["id"]).Ok? ==>
      ChosenId(tags, newId) == DecodeUUIDAsWritten(tags["id"]).value
    ensures ("id" !in tags || DecodeUUIDAsWritten(tags["id"]).Err?) && "uuid" in tags && DecodeUUIDAsWritten(tags["uuid"]).Ok? ==>
      ChosenId(tags, newId) == DecodeUUIDAsWritten(tags["uuid"]).value
  {
  }

  /** When the decoder as written reads neither tag, the new UUID is used, and the identity tag written is its encoding. */
  lemma FreshIdWhenNoneDecodes(tags: map<string, string>, newId: Uuid, preferShort: bool)
    requires "id" !in tags || DecodeUUIDAsWritten(tags["id"]).Err?
    requires "uuid" !in tags || DecodeUUIDAsWritten(tags["uuid"]).Err?
    ensures ChosenId(tags, newId) == newId
    ensures preferShort ==> IdentityTags(tags, preferShort, newId)["id"] == ShortEncodeUUID(newId)
    ensures !preferShort ==> IdentityTags(tags, preferShort, newId)["uuid"] == LongEncodeUUID(newId)
  {
  }

  /**
   * The identity tag written decodes back to the identifier chosen: a `uuid` tag with either decoder,
   * an `id` tag with the corrected one, and with the one as written exactly when it is not 36
   * characters long.
   */
  lemma IdentityTagDecodes(tags: map<string, string>, preferShort: bool, id: Uuid)
    ensures !preferShort ==> DecodeUUIDAsWritten(IdentityTags(tags, preferShort, id)["uuid"]) == Ok(id)
    ensures !preferShort ==> DecodeUUID(IdentityTags(tags, preferShort, id)["uuid"]) == Ok(id)
    ensures preferShort ==> DecodeUUID(IdentityTags(tags, preferShort, id)["id"]) == Ok(id)
    ensures preferShort ==>
      (DecodeUUIDAsWritten(IdentityTags(tags, preferShort, id)["id"]) == Ok(id) <==> |ShortEncodeUUID(id)| != 36)
  {
    DecodeOfShort(id);
    AsWrittenShortForm(id);
    DecodeOfLong(id);
  }

  /**
   * An `id` tag holding a 36-character short form, with no `uuid` tag the decoder as written reads:
   * the code as written replaces the identifier by the new one, while the corrected decoder keeps it.
   */
  lemma LongShortFormReplaced(tags: map<string, string>, u: Uuid, newId: Uuid)
    requires "id" in tags && tags["id"] == ShortEncodeUUID(u) && |ShortEncodeUUID(u)| == 36
    requires "uuid" !in tags || DecodeUUIDAsWritten(tags["uuid"]).Err?
    ensures ChosenId(tags, newId) == newId
    ensures CorrectedChosenId(tags, newId) == u
  {
    AsWrittenRejectsLongShortForms(u);
    DecodeOfShort(u);
  }

  /** The identity step touches no tag other than `id` and `uuid`. */
  lemma IdentityTagsOthersUnchanged(tags: map<string, string>, preferShort: bool, id: Uuid)
    ensures forall k :: k != "id" && k != "uuid" ==>
      (k in IdentityTags(tags, preferShort, id) <==> k in tags) &&
      (k in tags ==> IdentityTags(tags, preferShort, id)[k] == tags[k])
  {
  }

  /** `ensureTags` keeps existing keys and values, adds each missing default, and adds nothing else. */
  lemma WithDefaultsProperties(tags: map<string, string>, defaults: map<string, string>)
    ensures var r := WithDefaults(tags, defaults);
      && (forall k :: k in tags ==> k in r && r[k] == tags[k])
      && (forall k :: k in defaults && k !in tags ==> k in r && r[k] == defaults[k])
      && (forall k :: k in r ==> k in tags || k in defaults)
  {
  }

  /** The creation date is set only when enforcement is on and there is none; an existing one is kept. */
  lemma CreationDateRule(t: Task, config: TaskEnsureConfig, now: Date, newId: Uuid)
    ensures var e := Ensured(t, config, now, newId);
      && (t.createdDate.Some? ==> e.createdDate == t.createdDate)
      && (config.enforceCreationDate ==> e.createdDate.Some?)
      && (!config.enforceCreationDate ==> e.createdDate == t.createdDate)
      && (t.createdDate.None? && config.enforceCreationDate ==> e.createdDate == Some(now))
  {
  }

  /** The completion date is set only for a completed task lacking one, under enforcement; it is never overwritten. */
  lemma CompletionDateRule(t: Task, config: TaskEnsureConfig, now: Date, newId: Uuid)
    ensures var e := Ensured(t, config, now, newId);
      && (t.completedDate.Some? ==> e.completedDate == t.completedDate)
      && (e.completedDate != t.completedDate <==>
            config.enforceCompletionDate && t.completed && t.completedDate.None?)
      && e.completed == t.completed
  {
  }

  /** The ensurer changes only the two dates and the tags. */
  lemma EnsuredKeepsContent(t: Task, config: TaskEnsureConfig, now: Date, newId: Uuid)
    ensures var e := Ensured(t, config, now, newId);
      e.todo == t.todo && e.priority == t.priority && e.projects == t.projects
      && e.contexts == t.contexts && e.dueDate == t.dueDate
  {
  }

  /**
   * A second pass with the same configuration changes nothing, whatever the clock and the new UUID
   * of the second pass, provided the default tags do not name an identity tag and, with short
   * identifiers, the chosen identifier's short form is not 36 characters long (otherwise see
   * `AsWrittenEnsurerReidentifies`).
   */
  lemma EnsuredIdempotent(t: Task, config: TaskEnsureConfig, now: Date, newId: Uuid, now2: Date, newId2: Uuid)
    requires NoIdentityDefaults(config)
    requires config.preferShortIds ==> |ShortEncodeUUID(ChosenId(t.tags, newId))| != 36
    ensures var e := Ensured(t, config, now, newId);
      Ensured(e, config, now2, newId2) == e
  {
    var e := Ensured(t, config, now, newId);
    EnsuredTagsIdempotent(t.tags, config, newId, newId2);
  }

  /**
   * Tags already holding one identity tag in the preferred form keep it: it is rewritten unchanged,
   * the corrected decoder always chooses it again, and the decoder as written does unless it is a
   * 36-character short form.
   */
  lemma IdentityTagsFixed(tags: map<string, string>, preferShort: bool, id: Uuid, newId: Uuid)
    requires preferShort ==> "id" in tags && tags["id"] == ShortEncodeUUID(id) && "uuid" !in tags
    requires !preferShort ==> "uuid" in tags && tags["uuid"] == LongEncodeUUID(id) && "id" !in tags
    ensures CorrectedChosenId(tags, newId) == id
    ensures (preferShort ==> |ShortEncodeUUID(id)| != 36) ==> ChosenId(tags, newId) == id
    ensures IdentityTags(tags, preferShort, id) == tags
  {
    if preferShort {
      DecodeOfShort(id);
      AsWrittenShortForm(id);
      assert tags - {"uuid"} == tags;
      assert tags["id" := ShortEncodeUUID(id)] == tags;
    } else {
      DecodeOfLong(id);
      assert tags - {"id"} == tags;
      assert tags["uuid" := LongEncodeUUID(id)] == tags;
    }
  }

  /** Filling in the defaults twice is filling them in once. */
  lemma WithDefaultsIdempotent(tags: map<string, string>, defaults: map<string, string>)
    ensures WithDefaults(WithDefaults(tags, defaults), defaults) == WithDefaults(tags, defaults)
  {
  }

  /**
   * The tag step is idempotent when the identity tag it wrote is read back by the decoder as
   * written, that is, unless it is a 36-character short form: that tag is kept, and the defaults
   * are present.
   */
  lemma EnsuredTagsIdempotent(tags: map<string, string>, config: TaskEnsureConfig, newId: Uuid, newId2: Uuid)
    requires NoIdentityDefaults(config)
    requires config.preferShortIds ==> |ShortEncodeUUID(ChosenId(tags, newId))| != 36
    ensures var once := WithDefaults(IdentityTags(tags, config.preferShortIds, ChosenId(tags, newId)), config.defaultTags);
      WithDefaults(IdentityTags(once, config.preferShortIds, ChosenId(once, newId2)), config.defaultTags) == once
  {
    var id := ChosenId(tags, newId);
    var it := IdentityTags(tags, config.preferShortIds, id);
    var once := WithDefaults(it, config.defaultTags);
    IdentityTagsFixed(once, config.preferShortIds, id, newId2);
    WithDefaultsIdempotent(it, config.defaultTags);
  }

  // ---------------------------------------------------------------------------------------------
  // The identity step on a 36-character short form

  /**
   * The code as written re-identifies a task whose identifier has a 36-character short form: a task
   * without identity tags that receives `SaturatedV7` gets its short form as `id` tag, and a second
   * pass cannot read that tag back and replaces it by the second pass's new UUID.
   */
  lemma AsWrittenEnsurerReidentifies(t: Task, config: TaskEnsureConfig, now: Date, now2: Date, newId2: Uuid)
    requires config.preferShortIds && NoIdentityDefaults(config)
    requires "id" !in t.tags && "uuid" !in t.tags
    requires newId2 != SaturatedV7
    ensures var e := Ensured(t, config, now, SaturatedV7);
      && e.tags["id"] == ShortEncodeUUID(SaturatedV7)
      && Ensured(e, config, now2, newId2).tags["id"] == ShortEncodeUUID(newId2)
      && Ensured(e, config, now2, newId2) != e
  {
    var e := Ensured(t, config, now, SaturatedV7);
    SingleIdentityTag(t, config, now, SaturatedV7);
    AsWrittenLosesSaturatedV7();
    LongShortFormReplaced(e.tags, SaturatedV7, newId2);
    SingleIdentityTag(e, config, now2, newId2);
    if Ensured(e, config, now2, newId2) == e {
      ShortEncodeInjective(newId2, SaturatedV7);
    }
  }

  /** The tag step with the corrected decoder. */
  function CorrectedTags(tags: map<string, string>, config: TaskEnsureConfig, newId: Uuid): map<string, string> {
    WithDefaults(IdentityTags(tags, config.preferShortIds, CorrectedChosenId(tags, newId)), config.defaultTags)
  }

  /** With the corrected decoder the tag step is idempotent for every identifier, 36-character short forms included. */
  lemma CorrectedTagsIdempotent(tags: map<string, string>, config: TaskEnsureConfig, newId: Uuid, newId2: Uuid)
    requires NoIdentityDefaults(config)
    ensures var once := CorrectedTags(tags, config, newId);
      CorrectedTags(once, config, newId2) == once
  {
    var id := CorrectedChosenId(tags, newId);
    var it := IdentityTags(tags, config.preferShortIds, id);
    var once := WithDefaults(it, config.defaultTags);
    IdentityTagsFixed(once, config.preferShortIds, id, newId2);
    WithDefaultsIdempotent(it, config.defaultTags);
  }

  /** The correction changes the identifier chosen only where the decoder as written rejects a tag. */
  lemma CorrectedChosenIdAgrees(tags: map<string, string>, newId: Uuid)
    requires "id" in tags ==> DecodeUUIDAsWritten(tags["id"]).Ok?
    requires "uuid" in tags ==> DecodeUUIDAsWritten(tags["uuid"]).Ok?
    ensures CorrectedChosenId(tags, newId) == ChosenId(tags, newId)
  {
    if "id" in tags {
      DecodeAgreesWithAsWritten(tags["id"]);
    } else if "uuid" in tags {
      DecodeAgreesWithAsWritten(tags["uuid"]);
    }
  }
}
