/**
 * The request table and what the handlers do to it: `submit` validates and
 * inserts, `detail` looks a row up by id, `update` overwrites status and
 * priority in place, and `admin` lists every row newest first. Ids and
 * timestamps come from the table and from a clock value the caller passes in.
 */
module Store {
  import opened Wrappers
  import opened Forms
  import opened Requests
  import opened Listing

  /** Row ids are positive and strictly increase in table (rowid) order. */
  predicate IdsIncreasing(rows: seq<Record>)
  {
    && (forall k | 0 <= k < |rows| :: rows[k].id >= 1)
    && (forall i, j | 0 <= i < j < |rows| :: rows[i].id < rows[j].id)
  }

  /** Every stored row has a non-empty name, title and details. */
  predicate RequiredPresent(rows: seq<Record>)
  {
    forall k | 0 <= k < |rows| :: rows[k].name != "" && rows[k].title != "" && rows[k].details != ""
  }

  lemma RequiredPresentAppend(rows: seq<Record>, item: Record)
    requires RequiredPresent(rows)
    requires item.name != "" && item.title != "" && item.details != ""
    ensures RequiredPresent(rows + [item])
  {
  }

  /**
   * The id the table gives its next row: one more than the largest id held,
   * or 1 when the table is empty, so no row holds it yet.
   */
  function NextId(rows: seq<Record>): (n: int)
    requires IdsIncreasing(rows)
    ensures n >= 1
    ensures forall k | 0 <= k < |rows| :: rows[k].id < n
  {
    if rows == [] then 1 else rows[|rows| - 1].id + 1
  }

  /** The position of the row with the given id, or None when no row has it. */
  function Locate(rows: seq<Record>, id: int): (k: Option<nat>)
    ensures k.Some? ==> k.value < |rows| && rows[k.value].id == id
    ensures k.None? ==> forall j | 0 <= j < |rows| :: rows[j].id != id
  {
    if rows == [] then None
    else if rows[0].id == id then Some(0)
    else
      match Locate(rows[1..], id)
      case None => None
      case Some(k) => Some(k + 1)
  }

  /** With increasing ids, an id identifies one row: lookup finds exactly that row. */
  lemma LocateFindsTheOnlyRow(rows: seq<Record>, id: int, j: nat)
    requires IdsIncreasing(rows)
    requires j < |rows| && rows[j].id == id
    ensures Locate(rows, id) == Some(j)
  {
    assert Locate(rows, id).Some?;
  }

  /** The one table of request rows. */
  class RequestTable {
    /** The rows in insertion (rowid) order. */
    var rows: seq<Record>

    ghost predicate Valid()
      reads this
    {
      IdsIncreasing(rows)
    }

    /** A freshly initialised, empty table. */
    constructor ()
      ensures Valid() && rows == [] && RequiredPresent(rows)
    {
      rows := [];
    }

    /**
     * Adds a draft as a new row: it gets an id no existing row holds, the
     * default status and the given creation time; existing rows are unchanged.
     */
    method Insert(d: Draft, now: int) returns (item: Record)
      requires Valid()
      modifies this
      ensures Valid()
      ensures item == NewRecord(d, NextId(old(rows)), now)
      ensures forall k | 0 <= k < |old(rows)| :: old(rows)[k].id != item.id
      ensures rows == old(rows) + [item]
    {
      item := NewRecord(d, NextId(rows), now);
      rows := rows + [item];
    }

    /**
     * The submit handler: a rejected form leaves the table unchanged; an
     * accepted one inserts exactly one row, built from the normalised form.
     */
    method Submit(form: Form, now: int) returns (r: Result<Record, Error>)
      requires Valid()
      modifies this
      ensures Valid()
      ensures ParseSubmission(form).Err? ==> r == Err(MissingRequired) && rows == old(rows)
      ensures ParseSubmission(form).Ok? ==>
        && r == Ok(NewRecord(ParseSubmission(form).value, NextId(old(rows)), now))
        && rows == old(rows) + [r.value]
      ensures r.Ok? ==> forall k | 0 <= k < |old(rows)| :: old(rows)[k].id != r.value.id
      ensures RequiredPresent(old(rows)) ==> RequiredPresent(rows)
    {
      var parsed := ParseSubmission(form);
      if parsed.Err? {
        r := Err(parsed.error);
      } else {
        ghost var before := rows;
        var item := Insert(parsed.value, now);
        r := Ok(item);
        if RequiredPresent(before) {
          RequiredPresentAppend(before, item);
        }
      }
    }

    /** The detail handler's lookup: the row with the id, or NotFound when there is none. */
    method Detail(id: int) returns (r: Result<Record, Error>)
      requires Valid()
      ensures r.Err? <==> forall k | 0 <= k < |rows| :: rows[k].id != id
      ensures r.Err? ==> r.error == NotFound
      ensures r.Ok? ==> r.value.id == id && r.value in rows
    {
      match Locate(rows, id) {
        case None =>
          r := Err(NotFound);
        case Some(k) =>
          r := Ok(rows[k]);
      }
    }

    /**
     * The update handler: NotFound and no change when no row has the id;
     * otherwise that row gets the form's status and priority (each only when
     * submitted) and every other row is unchanged.
     */
    method Update(id: int, form: Form) returns (r: Result<Record, Error>)
      requires Valid()
      modifies this
      ensures Valid()
      ensures r.Err? <==> forall k | 0 <= k < |old(rows)| :: old(rows)[k].id != id
      ensures r.Err? ==> r.error == NotFound && rows == old(rows)
      ensures |rows| == |old(rows)|
      ensures forall k | 0 <= k < |rows| ::
        rows[k] == if old(rows)[k].id == id then ApplyUpdate(old(rows)[k], form) else old(rows)[k]
      ensures r.Ok? ==> r.value.id == id && r.value in rows
      ensures RequiredPresent(old(rows)) ==> RequiredPresent(rows)
    {
      match Locate(rows, id) {
        case None =>
          r := Err(NotFound);
        case Some(k) =>
          var item := ApplyUpdate(rows[k], form);
          forall j | 0 <= j < |rows| && rows[j].id == id ensures j == k {
            LocateFindsTheOnlyRow(rows, id, j);
          }
          rows := rows[k := item];
          r := Ok(item);
      }
    }

    /** The admin listing: every row, exactly once each, newest first. */
    method Admin() returns (items: seq<Record>)
      requires Valid()
      ensures NewestFirst(items)
      ensures multiset(items) == multiset(rows)
    {
      items := SortNewest(rows);
    }
  }

  lemma ReversedOfThree(r1: Record, r2: Record, r3: Record)
    ensures Reversed([r1, r2, r3]) == [r3, r2, r1]
  {
    assert [r1, r2, r3][1..] == [r2, r3];
    assert [r2, r3][1..] == [r3];
    assert Reversed([r3]) == [r3];
  }

  /**
   * Three requests inserted at strictly increasing times into a new table
   * get ids 1, 2 and 3 and are listed newest first: the third, then the
   * second, then the first.
   */
  method ThreeInsertsListed(d1: Draft, d2: Draft, d3: Draft, t1: int, t2: int, t3: int)
    returns (items: seq<Record>, r1: Record, r2: Record, r3: Record)
    requires t1 < t2 < t3
    ensures r1 == NewRecord(d1, 1, t1) && r2 == NewRecord(d2, 2, t2) && r3 == NewRecord(d3, 3, t3)
    ensures items == [r3, r2, r1]
  {
    var table := new RequestTable();
    r1 := table.Insert(d1, t1);
    r2 := table.Insert(d2, t2);
    r3 := table.Insert(d3, t3);
    ghost var rows := table.rows;
    assert rows == [r1, r2, r3];
    assert StrictlyChronological(rows);
    items := table.Admin();
    ChronologicalListingIsReversed(items, rows);
    ReversedOfThree(r1, r2, r3);
  }
}
