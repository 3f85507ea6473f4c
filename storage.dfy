/**
 * Checking the structure of imported data (scripts/storage.js,
 * `validateImportData`), applied to the value `JSON.parse` produced, and
 * the task export whose output it is meant to accept.
 */
module Storage {
  import opened Common
  import opened Tasks

  /** `{ valid: true }`, `{ valid: false, error }`, or a `TypeError` from reading a property of `null`. */
  datatype ImportCheck = Accepted | Rejected(error: string) | Threw

  const NotArrayMessage := "Data must be an array"
  const MissingFieldsMessage := "Invalid task structure - missing required fields"
  const BadDurationMessage := "Duration must be a positive number"

  /** `item[key]`: an object's own entry; every other JSON value has no such property (`None` is `undefined`). */
  function Get(item: Json, key: string): Option<Json>
  {
    if item.JObject? && key in item.fields then Some(item.fields[key]) else None
  }

  /** JavaScript truthiness of a property value (`undefined` is falsy; JSON has no `NaN`). */
  predicate Truthy(v: Option<Json>)
  {
    match v
    case None => false
    case Some(JNull) => false
    case Some(JBool(b)) => b
    case Some(JNumber(n)) => n != 0.0
    case Some(JString(s)) => s != ""
    case Some(JArray(_)) => true
    case Some(JObject(_)) => true
  }

  predicate HasRequiredFields(item: Json)
  {
    && Truthy(Get(item, "id"))
    && Truthy(Get(item, "title"))
    && Truthy(Get(item, "duration"))
    && Truthy(Get(item, "tag"))
    && Truthy(Get(item, "dueDate"))
  }

  predicate IsPositiveNumber(v: Option<Json>)
  {
    v.Some? && v.value.JNumber? && v.value.n > 0.0
  }

  /** One pass of the loop body: the outcome for `item`, `Accepted` meaning "go on". */
  function ItemCheck(item: Json): ImportCheck
  {
    if item.JNull? then Threw
    else if !HasRequiredFields(item) then Rejected(MissingFieldsMessage)
    else if !IsPositiveNumber(Get(item, "duration")) then Rejected(BadDurationMessage)
    else Accepted
  }

  /** The outcome of the loop over `items`: the first item that is not accepted decides. */
  function FirstFailure(items: seq<Json>): ImportCheck
  {
    if items == [] then Accepted
    else if ItemCheck(items[0]) != Accepted then ItemCheck(items[0])
    else FirstFailure(items[1..])
  }

  /** `validateImportData(data)`: a non-array is refused; otherwise the loop stops at the first item that fails a check. */
  function ValidateImportData(data: Json): (r: ImportCheck)
    ensures !data.JArray? ==> r == Rejected(NotArrayMessage)
    ensures data == JArray([]) ==> r == Accepted
  {
    if !data.JArray? then Rejected(NotArrayMessage) else FirstFailure(data.items)
  }

  // ---------------------------------------------------------------------
  // Properties of the check

  /** The data is accepted exactly when it is an array and every item passes both checks. */
  lemma {:induction false} AcceptedIff(items: seq<Json>)
    ensures FirstFailure(items) == Accepted <==> forall i :: 0 <= i < |items| ==> ItemCheck(items[i]) == Accepted
    decreases |items|
  {
    if items != [] {
      AcceptedIff(items[1..]);
      assert forall i :: 1 <= i < |items| ==> items[i] == items[1..][i - 1];
    }
  }

  /** A rejection (or exception) is the outcome of the first item that is not accepted. */
  lemma {:induction false} FailureIsFirstOffender(items: seq<Json>)
    requires FirstFailure(items) != Accepted
    ensures exists i :: (0 <= i < |items| && ItemCheck(items[i]) == FirstFailure(items) &&
      forall j :: 0 <= j < i ==> ItemCheck(items[j]) == Accepted)
    decreases |items|
  {
    if ItemCheck(items[0]) == Accepted {
      FailureIsFirstOffender(items[1..]);
      var i :| 0 <= i < |items[1..]| && ItemCheck(items[1..][i]) == FirstFailure(items[1..]) &&
        forall j :: 0 <= j < i ==> ItemCheck(items[1..][j]) == Accepted;
      assert ItemCheck(items[i + 1]) == FirstFailure(items);
      assert forall j :: 1 <= j < i + 1 ==> items[j] == items[1..][j - 1];
    } else {
      assert ItemCheck(items[0]) == FirstFailure(items);
    }
  }

  /** Every outcome is one of the three messages, an exception, or acceptance. */
  lemma OutcomeMessages(data: Json)
    ensures ValidateImportData(data).Rejected? ==>
      ValidateImportData(data).error in {NotArrayMessage, MissingFieldsMessage, BadDurationMessage}
    ensures ValidateImportData(data) == Threw ==> data.JArray? && JNull in data.items
  {
    if data.JArray? && ValidateImportData(data) != Accepted {
      FailureIsFirstOffender(data.items);
    }
  }

  /**
   * The data is valid exactly when it is an array each of whose items has
   * truthy `id`, `title`, `duration`, `tag` and `dueDate` and a `duration`
   * that is a number greater than 0 (such items are necessarily objects).
   */
  lemma ValidIff(data: Json)
    ensures ValidateImportData(data) == Accepted <==>
      && data.JArray?
      && forall i :: 0 <= i < |data.items| ==>
           HasRequiredFields(data.items[i]) && IsPositiveNumber(Get(data.items[i], "duration"))
    ensures ValidateImportData(data) == Accepted ==> forall i :: 0 <= i < |data.items| ==> data.items[i].JObject?
  {
    if data.JArray? {
      AcceptedIff(data.items);
    }
  }

  /**
   * The two checks overlap: a duration of 0 is falsy and is reported as a
   * missing field, a duration given as text or a negative number as a bad
   * duration.
   */
  lemma DurationCases()
    ensures ItemCheck(SampleItem(JNumber(0.0))) == Rejected(MissingFieldsMessage)
    ensures ItemCheck(SampleItem(JString("10"))) == Rejected(BadDurationMessage)
    ensures ItemCheck(SampleItem(JNumber(-1.0))) == Rejected(BadDurationMessage)
    ensures ItemCheck(SampleItem(JNumber(0.5))) == Accepted
  {
  }

  function SampleItem(duration: Json): Json
  {
    JObject(map[
      "id" := JString("t1"), "title" := JString("Read"), "duration" := duration,
      "tag" := JString("Study"), "dueDate" := JString("2025-01-01")])
  }

  // ---------------------------------------------------------------------
  // Export

  function OptionalString(o: Option<string>): map<string, Json>
  {
    if o.Some? then map["priority" := JString(o.value)] else map[]
  }

  /** A task as `JSON.stringify` writes it and `JSON.parse` reads it back; a missing priority is omitted. */
  function TaskToJson(t: Task): (j: Json)
    ensures j.JObject?
    ensures j.fields.Keys
      == {"id", "title", "duration", "tag", "dueDate", "createdAt", "updatedAt"}
      + (if t.priority.Some? then {"priority"} else {})
    ensures Get(j, "id") == Some(JString(t.id)) && Get(j, "title") == Some(JString(t.title))
    ensures Get(j, "duration") == Some(JNumber(t.duration as real))
    ensures Get(j, "tag") == Some(JString(t.tag)) && Get(j, "dueDate") == Some(JString(t.dueDate))
    ensures Get(j, "createdAt") == Some(JString(t.createdAt)) && Get(j, "updatedAt") == Some(JString(t.updatedAt))
    ensures t.priority.None? <==> "priority" !in j.fields
    ensures t.priority.Some? ==> j.fields["priority"] == JString(t.priority.value)
  {
    JObject(map[
      "id" := JString(t.id), "title" := JString(t.title), "duration" := JNumber(t.duration as real),
      "tag" := JString(t.tag), "dueDate" := JString(t.dueDate),
      "createdAt" := JString(t.createdAt), "updatedAt" := JString(t.updatedAt)]
      + OptionalString(t.priority))
  }

  /** The hypothesis of the round trip: the four required strings are non-empty and the duration positive. */
  predicate Exportable(t: Task)
  {
    t.id != "" && t.title != "" && t.tag != "" && t.dueDate != "" && t.duration > 0
  }

  /** An exported list of such tasks passes the import check. */
  lemma ExportIsImportable(tasks: seq<Task>)
    requires forall i :: 0 <= i < |tasks| ==> Exportable(tasks[i])
    ensures ValidateImportData(JArray(seq(|tasks|, i requires 0 <= i < |tasks| => TaskToJson(tasks[i])))) == Accepted
  {
    var items := seq(|tasks|, i requires 0 <= i < |tasks| => TaskToJson(tasks[i]));
    forall i | 0 <= i < |items| ensures ItemCheck(items[i]) == Accepted {
      var t := tasks[i];
      assert items[i] == TaskToJson(t);
      assert Get(items[i], "duration") == Some(JNumber(t.duration as real));
    }
    AcceptedIff(items);
  }

  /** But an export that holds a task of 0 minutes, or with an empty title, is refused on import. */
  lemma ExportOfDegenerateTaskIsRefused(t: Task)
    requires t.duration == 0 || t.title == ""
    ensures ValidateImportData(JArray([TaskToJson(t)])) == Rejected(MissingFieldsMessage)
  {
    var j := TaskToJson(t);
    assert Get(j, "duration") == Some(JNumber(t.duration as real));
    assert Get(j, "title") == Some(JString(t.title));
    assert [j][1..] == [];
  }
}
