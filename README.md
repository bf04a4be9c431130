# Request intake and moderation, modelled in Dafny

This project models the request workflow in `app.py`. It covers three parts.

- The public submission handler. It trims the form fields, rejects a missing or blank name, title or details, stores a blank category as absent and defaults an empty priority to `normal`.
- The one table of requests (`RequestItem`). A new row gets a fresh id, the default status `new` and a creation time. The admin detail page looks a row up by id, or fails with not-found. The admin update form overwrites status and/or priority, but only the fields it submits. The admin listing shows every row, newest first.
- `as_dict`, the field-for-field mapping of a row.

The model is split into four files:

- `forms.dfy`
  - module `Wrappers`: `Option` and `Result`.
  - module `Forms`: `form.get`, Python's `value or fallback`, and `str.strip()` over the characters for which `str.isspace()` holds.
- `requests.dfy`, module `Requests`: the record, `as_dict` and its inverse, submission parsing and the partial update, all as functions.
- `listing.dfy`, module `Listing`: the ordering of the admin listing, as an insertion sort on sequences.
- `store.dfy`, module `Store`: the table, as a class `RequestTable`. It holds the rows in insertion (rowid) order in a `seq` field. Its methods `Submit`, `Insert`, `Detail`, `Update` and `Admin` follow the handlers.

How the model stands in for the database and the clock:

- The clock `datetime.utcnow` is replaced by an integer `now`, which the caller passes to `Submit`/`Insert`.
- Ids follow SQLite's rule for an integer primary key: one more than the largest id held, or 1 for an empty table. The class invariant keeps ids strictly increasing along the rows, so no two rows share an id.
- A submitted form is a `map<string, string>`: each submitted field name with its value.

What the code does not do, and so the model does not either:

- `admin`, `detail` and `update` have no login guard, no search and no filters, so none is modelled.
- `order_by(created_at.desc())` sets no tie-break among equal timestamps. So `Admin` promises only that the listing is newest first and a permutation of the table. When the timestamps strictly increase, this alone fixes the order: the table reversed. The function `SortNewest` that computes the listing happens to keep table order on ties. No contract depends on that.

## Model

| member | source | states |
|---|---|---|
| `Forms.Get` | app.py:57-59 | `form.get(key)` is present exactly when the field was submitted, and then holds the submitted value |
| `Forms.GetOr` | app.py:94-95 | `form.get(key, default)` is the submitted value when the field is present (even an empty one), and `default` otherwise |
| `Forms.OrElse` | app.py:57-71 | Python's `v or fallback`: a missing or empty value gives the fallback; any other string is kept unchanged |
| `Forms.TrimStart` | app.py:57-59 | `lstrip()` never lengthens its input (characterised fully by `TrimStartSpec`) |
| `Forms.TrimEnd` | app.py:57-59 | `rstrip()` never lengthens its input (characterised fully by `TrimEndSpec`) |
| `Forms.Strip` | app.py:57-59 | `strip()` never lengthens its input (characterised fully by `StripSpec`) |
| `Forms.TrimStartSpec` | app.py:57-59 | trimming the start leaves a suffix of the input, removes only whitespace, and leaves no leading whitespace |
| `Forms.TrimEndSpec` | app.py:57-59 | trimming the end leaves a prefix of the input, removes only whitespace, and leaves no trailing whitespace |
| `Forms.StripSpec` | app.py:57-59 | the stripped value is a contiguous slice of the input with only whitespace before and after it, and it neither starts nor ends with whitespace |
| `Forms.StripEmptyIff` | app.py:57-61 | stripping gives the empty string exactly when the input is empty or all whitespace (the `not name` test after `.strip()`) |
| `Forms.StripIdempotent` | app.py:57-59 | stripping an already stripped string changes nothing |
| `Requests.AsDict` | app.py:29-40 | `as_dict` has exactly the nine column keys |
| `Requests.AsDictRoundTrip` | app.py:29-40 | the record can be read back from its `as_dict` mapping (nothing is lost) |
| `Requests.AsDictInjective` | app.py:29-40 | two records with equal `as_dict` mappings are equal |
| `Requests.StrippedField` | app.py:57-59 | `(form.get(key) or "").strip()` is the stripped submitted value, and "" when the field is missing |
| `Requests.ParseSubmission` | app.py:55-72 | the only rejection is the missing-required-field error; an accepted submission has non-empty name, title and details |
| `Requests.RejectedIffRequiredBlank` | app.py:57-63 | a submission is rejected exactly when name, title or details is missing or whitespace only |
| `Requests.AcceptedFieldsTrimmed` | app.py:57-69 | an accepted submission stores name, title, details and contact as submitted with surrounding whitespace removed; a missing contact becomes the empty string |
| `Requests.CategoryAbsentIffBlank` | app.py:70 | the category is absent exactly when the submitted one is missing or blank, and otherwise it is the non-empty stripped submitted category |
| `Requests.PriorityDefaultsWhenEmpty` | app.py:71 | the priority is `normal` when missing or empty, and otherwise the submitted string verbatim (not trimmed, not checked against low/normal/high) |
| `Requests.NewRecord` | app.py:25-27 | a new row carries the draft's name, title, details, category and priority and `Some` of its contact, with status `new`, the assigned id and the creation time |
| `Requests.StoredSubmissionFields` | app.py:57-71 | the row an accepted submission stores: name, title, details and contact are the stripped submitted values (a missing contact is stored as "", not as absent); the category is absent exactly when blank and is otherwise the stripped value; the priority is `normal` when missing or empty and otherwise verbatim; the status is `new` |
| `Requests.ApplyUpdate` | app.py:94-95 | an update changes no column other than status and priority |
| `Requests.UpdateKeepsOtherColumns` | app.py:93-95 | an update leaves id, name, contact, title, details, category and created_at unchanged |
| `Requests.UpdateSetsSubmittedFields` | app.py:94-95 | status and priority take the submitted value when the form holds the field, even an empty one, and keep the old value when it does not |
| `Requests.UpdateWithoutFieldsIsIdentity` | app.py:94-95 | a form holding neither status nor priority leaves the record unchanged |
| `Requests.UpdateIdempotent` | app.py:94-95 | applying the same update form twice equals applying it once |
| `Listing.ConsNewestFirst` | app.py:81-83 | a record no older than the first of a newest-first sequence may be put in front of it |
| `Listing.InsertByNewest` | app.py:81-83 | inserting into a newest-first sequence keeps it newest first and adds exactly that record |
| `Listing.SortNewest` | app.py:81-83 | the listing is ordered by created_at non-increasing and is a permutation of the table |
| `Listing.ReversedSnoc` | app.py:81-83 | reversing a table with one more row at the end puts that row first |
| `Listing.NewestComesFirst` | app.py:81-83 | a newest-first arrangement of a table whose times strictly increase starts with the last inserted row |
| `Listing.DropNewest` | app.py:81-83 | removing the newest row from a strictly chronological table and from its newest-first listing leaves a listing of the remaining rows |
| `Listing.ChronologicalListingIsReversed` | app.py:81-83 | when creation times strictly increase along the table, every newest-first permutation of it is the table reversed (last inserted first) |
| `Store.NextId` | app.py:19 | the next id is at least 1 and larger than every id held, so no existing row holds it |
| `Store.Locate` | app.py:88 | lookup returns a position holding the id, or none when no row has that id |
| `Store.LocateFindsTheOnlyRow` | app.py:19 | with increasing ids, the row holding an id is the one lookup finds (the primary key identifies one row) |
| `Store.RequiredPresentAppend` | app.py:20-23 | appending a row with non-empty name, title and details keeps the "required fields present" property of the table |
| `Store.RequestTable.constructor` | app.py:43-46 | the initialised table is empty and satisfies the id invariant |
| `Store.RequestTable.Insert` | app.py:74-75 | inserting appends exactly one row: the draft with a fresh id, status `new` and the given time; existing rows are unchanged |
| `Store.RequestTable.Submit` | app.py:55-77 | a rejected form returns the validation error and leaves the table unchanged; an accepted one appends exactly the normalised row with a fresh id; non-empty required fields are preserved |
| `Store.RequestTable.Detail` | app.py:86-89 | not-found exactly when no row has the id; otherwise returns the stored row with that id |
| `Store.RequestTable.Update` | app.py:91-96 | not-found and no change exactly when no row has the id; otherwise only the row with that id is replaced by its partial update, and all other rows are unchanged |
| `Store.RequestTable.Admin` | app.py:79-83 | the listing holds every row exactly once, ordered newest first; the order among equal timestamps is left open |
| `Store.ThreeInsertsListed` | app.py:74-83 | three requests inserted at strictly increasing times get ids 1, 2, 3 and are listed third, second, first |

## Left out

- HTTP plumbing: routing, `render_template`, `redirect`/`url_for`, `flash` messages and `app.run`. The handlers' results are returned as `Result` values, and the `404` becomes `Err(NotFound)`.
- The SQLAlchemy session, commit and SQLite file persistence. The table is an in-memory sequence. `init-db` appears only as the constructor of an empty table.
- The wall clock: `datetime.utcnow` is replaced by a caller-supplied integer. The current date and time is not modelled.
- Column length limits such as `String(120)`: neither SQLite nor the code enforces them.
- `SECRET_KEY`: configuration only.
- Form fields with several values: a form is a map holding one value per field, namely the one `form.get` returns.
- Concurrent requests racing on the same row: each method runs alone.
- Failure of the database commit: it is not modelled.
- The non-negative-integer check that Flask's `<int:item_id>` route converter applies to ids: it is not modelled. `Detail` and `Update` accept any integer and answer not-found for one no row holds.
- Validation at insert time: the table's `Insert` does not check that name, title and details are non-empty, just as the database would accept empty strings. That property is kept only for rows that come through `Submit`.
