/**
 * The request record (the `RequestItem` row), its field-for-field mapping,
 * the normalisation and validation of a public submission, and the partial
 * status/priority update of the admin form.
 */
module Requests {
  import opened Wrappers
  import opened Forms

  /** Column defaults of the request table. */
  const DefaultPriority: string := "normal"
  const DefaultStatus: string := "new"

  /** Errors the handlers report: a missing required field, an unknown id. */
  datatype Error = MissingRequired | NotFound

  /**
   * One stored request. `contact` and `category` are the two nullable
   * columns; `createdAt` is the creation timestamp.
   */
  datatype Record = Record(
    id: int,
    name: string,
    contact: Option<string>,
    title: string,
    details: string,
    category: Option<string>,
    priority: string,
    status: string,
    createdAt: int)

  /** A value of the mapping produced by `as_dict`. */
  datatype Value = IntValue(i: int) | TextValue(s: string) | NullValue | TimeValue(t: int)

  /** The nine keys of `as_dict`, one per column. */
  const Columns: set<string> :=
    {"id", "name", "contact", "title", "details", "category", "priority", "status", "created_at"}

  function OptionalText(v: Option<string>): Value
  {
    if v.Some? then TextValue(v.value) else NullValue
  }

  /** `as_dict`: each column of the record under its own name. */
  function AsDict(r: Record): (d: map<string, Value>)
    ensures d.Keys == Columns
  {
    map[
      "id" := IntValue(r.id),
      "name" := TextValue(r.name),
      "contact" := OptionalText(r.contact),
      "title" := TextValue(r.title),
      "details" := TextValue(r.details),
      "category" := OptionalText(r.category),
      "priority" := TextValue(r.priority),
      "status" := TextValue(r.status),
      "created_at" := TimeValue(r.createdAt)]
  }

  function TextOf(d: map<string, Value>, key: string): Option<string>
  {
    if key in d && d[key].TextValue? then Some(d[key].s) else None
  }

  function OptionalTextOf(d: map<string, Value>, key: string): Option<Option<string>>
  {
    if key in d && d[key].TextValue? then Some(Some(d[key].s))
    else if key in d && d[key].NullValue? then Some(None)
    else None
  }

  /**
   * Reads a record back from a mapping shaped like `as_dict`'s result;
   * None when a column is missing or holds a value of the wrong kind.
   */
  function FromDict(d: map<string, Value>): Option<Record>
  {
    var name, contact, title, details := TextOf(d, "name"), OptionalTextOf(d, "contact"), TextOf(d, "title"), TextOf(d, "details");
    var category, priority, status := OptionalTextOf(d, "category"), TextOf(d, "priority"), TextOf(d, "status");
    if "id" in d && d["id"].IntValue? && "created_at" in d && d["created_at"].TimeValue?
       && name.Some? && contact.Some? && title.Some? && details.Some?
       && category.Some? && priority.Some? && status.Some?
    then
      Some(Record(d["id"].i, name.value, contact.value, title.value, details.value,
                  category.value, priority.value, status.value, d["created_at"].t))
    else
      None
  }

  /** `as_dict` loses nothing: the record can be read back from it. */
  lemma AsDictRoundTrip(r: Record)
    ensures FromDict(AsDict(r)) == Some(r)
  {
  }

  /** Two records with the same `as_dict` are the same record. */
  lemma AsDictInjective(a: Record, b: Record)
    requires AsDict(a) == AsDict(b)
    ensures a == b
  {
    AsDictRoundTrip(a);
    AsDictRoundTrip(b);
  }

  /**
   * A validated submission, before the table assigns its id, timestamp and
   * default status.
   */
  datatype Draft = Draft(
    name: string,
    contact: string,
    title: string,
    details: string,
    category: Option<string>,
    priority: string)

  /** `(form.get(key) or "").strip()`: a submitted field stripped, a missing one read as "". */
  function StrippedField(form: Form, key: string): (r: string)
    ensures key in form ==> r == Strip(form[key])
    ensures key !in form ==> r == ""
  {
    assert Strip("") == "";
    Strip(OrElse(Get(form, key), ""))
  }

  /**
   * The submit handler's normalisation and validation: trims the text
   * fields, rejects a missing or blank name, title or details, turns a blank
   * category into None and defaults an empty or missing priority.
   */
  function ParseSubmission(form: Form): (r: Result<Draft, Error>)
    ensures r.Err? ==> r.error == MissingRequired
    ensures r.Ok? ==> r.value.name != "" && r.value.title != "" && r.value.details != ""
  {
    var name, title, details := StrippedField(form, "name"), StrippedField(form, "title"), StrippedField(form, "details");
    if name == "" || title == "" || details == "" then
      Err(MissingRequired)
    else
      var category := StrippedField(form, "category");
      Ok(Draft(
        name,
        StrippedField(form, "contact"),
        title,
        details,
        if category == "" then None else Some(category),
        OrElse(Get(form, "priority"), DefaultPriority)))
  }

  /** A field counts as blank when it is missing or holds only whitespace. */
  predicate Blank(form: Form, key: string)
  {
    key !in form || AllSpace(form[key])
  }

  lemma StrippedFieldEmptyIff(form: Form, key: string)
    ensures StrippedField(form, key) == "" <==> Blank(form, key)
  {
    StripEmptyIff(OrElse(Get(form, key), ""));
  }

  /** A submission is rejected exactly when name, title or details is blank. */
  lemma RejectedIffRequiredBlank(form: Form)
    ensures ParseSubmission(form).Err? <==> Blank(form, "name") || Blank(form, "title") || Blank(form, "details")
  {
    StrippedFieldEmptyIff(form, "name");
    StrippedFieldEmptyIff(form, "title");
    StrippedFieldEmptyIff(form, "details");
  }

  /**
   * An accepted submission keeps name, title, details and contact as the
   * submitted strings with surrounding whitespace removed; a missing contact
   * becomes the empty string.
   */
  lemma AcceptedFieldsTrimmed(form: Form)
    requires ParseSubmission(form).Ok?
    ensures var d := ParseSubmission(form).value;
      && "name" in form && d.name == Strip(form["name"])
      && "title" in form && d.title == Strip(form["title"])
      && "details" in form && d.details == Strip(form["details"])
      && d.contact == (if "contact" in form then Strip(form["contact"]) else "")
  {
    RejectedIffRequiredBlank(form);
  }

  /**
   * The stored category is None exactly when the submitted one is missing or
   * blank; otherwise it is the submitted category with whitespace removed.
   */
  lemma CategoryAbsentIffBlank(form: Form)
    requires ParseSubmission(form).Ok?
    ensures var d := ParseSubmission(form).value;
      && (d.category.None? <==> Blank(form, "category"))
      && (d.category.Some? ==> d.category.value == Strip(form["category"]) && d.category.value != "")
  {
    StrippedFieldEmptyIff(form, "category");
  }

  /**
   * The stored priority is "normal" when the submitted one is missing or
   * empty, and otherwise the submitted string unchanged (not trimmed and not
   * checked against low/normal/high).
   */
  lemma PriorityDefaultsWhenEmpty(form: Form)
    requires ParseSubmission(form).Ok?
    ensures var d := ParseSubmission(form).value;
      && (("priority" !in form || form["priority"] == "") ==> d.priority == DefaultPriority)
      && ("priority" in form && form["priority"] != "" ==> d.priority == form["priority"])
  {
  }

  /** The row that inserting a draft creates: the draft plus id, default status and timestamp. */
  function NewRecord(d: Draft, id: int, now: int): (r: Record)
    ensures r.status == DefaultStatus && r.id == id && r.createdAt == now
    ensures r.name == d.name && r.title == d.title && r.details == d.details
    ensures r.contact == Some(d.contact) && r.category == d.category && r.priority == d.priority
  {
    Record(id, d.name, Some(d.contact), d.title, d.details, d.category, d.priority, DefaultStatus, now)
  }

  /**
   * The row an accepted submission stores, column by column in terms of the
   * submitted form: name, title, details and contact stripped (a missing
   * contact stored as "", never as None), category None exactly when blank,
   * priority "normal" when missing or empty and verbatim otherwise, status "new".
   */
  lemma StoredSubmissionFields(form: Form, id: int, now: int)
    requires ParseSubmission(form).Ok?
    ensures var r := NewRecord(ParseSubmission(form).value, id, now);
      && r.id == id && r.createdAt == now && r.status == DefaultStatus
      && "name" in form && r.name == Strip(form["name"])
      && "title" in form && r.title == Strip(form["title"])
      && "details" in form && r.details == Strip(form["details"])
      && r.contact == Some(if "contact" in form then Strip(form["contact"]) else "")
      && (r.category.None? <==> Blank(form, "category"))
      && (r.category.Some? ==> r.category.value == Strip(form["category"]))
      && (("priority" !in form || form["priority"] == "") ==> r.priority == DefaultPriority)
      && ("priority" in form && form["priority"] != "" ==> r.priority == form["priority"])
  {
    AcceptedFieldsTrimmed(form);
    CategoryAbsentIffBlank(form);
    PriorityDefaultsWhenEmpty(form);
  }

  /**
   * The update handler on one record: `status` and `priority` take the
   * submitted value when the form holds that field (even an empty one) and
   * keep their value otherwise.
   */
  function ApplyUpdate(item: Record, form: Form): (r: Record)
    ensures r.(status := item.status, priority := item.priority) == item
  {
    item.(status := GetOr(form, "status", item.status), priority := GetOr(form, "priority", item.priority))
  }

  /** An update changes no column other than status and priority. */
  lemma UpdateKeepsOtherColumns(item: Record, form: Form)
    ensures var u := ApplyUpdate(item, form);
      && u.id == item.id && u.name == item.name && u.contact == item.contact
      && u.title == item.title && u.details == item.details
      && u.category == item.category && u.createdAt == item.createdAt
  {
  }

  /** Status and priority are overwritten exactly by the fields the form holds. */
  lemma UpdateSetsSubmittedFields(item: Record, form: Form)
    ensures var u := ApplyUpdate(item, form);
      && ("status" in form ==> u.status == form["status"])
      && ("status" !in form ==> u.status == item.status)
      && ("priority" in form ==> u.priority == form["priority"])
      && ("priority" !in form ==> u.priority == item.priority)
  {
  }

  /** A form holding neither status nor priority leaves the record as it was. */
  lemma UpdateWithoutFieldsIsIdentity(item: Record, form: Form)
    requires "status" !in form && "priority" !in form
    ensures ApplyUpdate(item, form) == item
  {
  }

  /** Submitting the same update twice has the effect of submitting it once. */
  lemma UpdateIdempotent(item: Record, form: Form)
    ensures ApplyUpdate(ApplyUpdate(item, form), form) == ApplyUpdate(item, form)
  {
  }
}
