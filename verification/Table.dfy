/**
  The editable rankings table: the component state that loading, adding,
  updating, deleting and editing records change, and the pure record
  operations those handlers apply to the list of records.
 */
module Table {

  import opened Optional
  import opened JsString
  import opened JsArray
  import opened Sports

  /** formData: the text in the add/edit dialog's inputs. */
  datatype FormData = FormData(sport: string, ranks: PerCountry<string>)

  /** resetForm's empty form. */
  const BlankForm: FormData := FormData("", PerCountry("", "", "", "", "", ""))

  /** How fetching the CSV file ended: its text, or a rejected or non-OK response. */
  datatype FetchOutcome = Fetched(text: string) | FetchFailed

  const LoadError: string := "Failed to load sports data"

  /** No two records share an id. */
  predicate UniqueIds(data: seq<Sport>) {
    forall i, j :: 0 <= i < j < |data| ==> data[i].id != data[j].id
  }

  /** Some record carries the id. */
  predicate HasId(data: seq<Sport>, id: int) {
    exists i :: 0 <= i < |data| && data[i].id == id
  }

  // ---------------------------------------------------------------------
  // Record operations
  // ---------------------------------------------------------------------

  /** `Math.max(...data.map(d => d.id), 0)`: the largest id, or 0 when there is none larger. */
  function MaxId(data: seq<Sport>): (m: int)
    ensures m >= 0
    ensures forall i :: 0 <= i < |data| ==> data[i].id <= m
    ensures m == 0 || HasId(data, m)
  {
    if data == [] then 0
    else
      var rest := MaxId(data[..|data| - 1]);
      var last := data[|data| - 1].id;
      if last > rest then last else rest
  }

  /** The form's six rank inputs, each through `parseInt(x) || 0`. */
  function FormRanks(form: FormData): PerCountry<int> {
    form.ranks.Map(ParseIntOrZero)
  }

  /** handleAdd's new record: the next id, the upper-cased label and the parsed ranks. */
  function NewSport(data: seq<Sport>, form: FormData): (s: Sport)
    ensures s.id >= 1
    ensures forall i :: 0 <= i < |data| ==> data[i].id < s.id
  {
    Sport(MaxId(data) + 1, Upper(form.sport), FormRanks(form))
  }

  /** handleUpdate's map: each record with the id gets the form's upper-cased label and parsed ranks. */
  function Updated(data: seq<Sport>, id: int, form: FormData): (r: seq<Sport>)
    ensures |r| == |data|
  {
    seq(|data|, i requires 0 <= i < |data| =>
      if data[i].id == id then Sport(data[i].id, Upper(form.sport), FormRanks(form)) else data[i])
  }

  /** handleDelete's filter: the records whose id differs. */
  function Removed(data: seq<Sport>, id: int): (r: seq<Sport>)
    ensures |r| <= |data|
    ensures forall s :: s in r <==> s in data && s.id != id
  {
    Filter(data, (s: Sport) => s.id != id)
  }

  /** startEdit's form: the record's label and the toString of each rank. */
  function EditForm(item: Sport): FormData {
    FormData(item.sport, item.ranks.Map(IntToString))
  }

  // ---------------------------------------------------------------------
  // Properties of the record operations
  // ---------------------------------------------------------------------

  /** Ingestion numbers the records 1..n, so their ids are unique. */
  lemma IngestIdsUnique(text: string)
    ensures UniqueIds(Ingest(text))
  {
    IngestLines(text);
  }

  /** Appending the new record keeps ids unique. */
  lemma AddKeepsIdsUnique(data: seq<Sport>, form: FormData)
    requires UniqueIds(data)
    ensures UniqueIds(data + [NewSport(data, form)])
  {
  }

  /** Deleting the record just added gives the records back. */
  lemma DeleteUndoesAdd(data: seq<Sport>, form: FormData)
    ensures Removed(data + [NewSport(data, form)], NewSport(data, form).id) == data
  {
    var s := NewSport(data, form);
    var keep := (x: Sport) => x.id != s.id;
    var d := data + [s];
    assert d[..|d| - 1] == data;
    FilterKeepsAll(data, keep);
  }

  /**
    Update changes only the records carrying the id: the length, every id and
    every other record stay as they were, and a matching record takes the
    form's upper-cased label and parsed ranks.
   */
  lemma UpdateTouchesOnlyMatching(data: seq<Sport>, id: int, form: FormData)
    ensures var r := Updated(data, id, form);
            && |r| == |data|
            && (forall i :: 0 <= i < |r| ==> r[i].id == data[i].id)
            && (forall i :: 0 <= i < |r| && data[i].id != id ==> r[i] == data[i])
            && (forall i :: 0 <= i < |r| && data[i].id == id ==>
                  r[i].sport == Upper(form.sport) && r[i].ranks == FormRanks(form))
            && (UniqueIds(data) ==> UniqueIds(r))
  {
  }

  /** Updating an id no record carries leaves the records unchanged. */
  lemma UpdateAbsentId(data: seq<Sport>, id: int, form: FormData)
    requires !HasId(data, id)
    ensures Updated(data, id, form) == data
  {
  }

  /** The form startEdit fills parses back to the record's ranks. */
  lemma EditFormRanks(item: Sport)
    ensures FormRanks(EditForm(item)) == item.ranks
  {
    var r := item.ranks;
    ParseIntToString(r.fra);
    ParseIntToString(r.ger);
    ParseIntToString(r.usa);
    ParseIntToString(r.chi);
    ParseIntToString(r.rus);
    ParseIntToString(r.jap);
  }

  /**
    startEdit followed by an unchanged update reproduces every rank of the
    edited record and upper-cases its label.
   */
  lemma EditThenUpdate(data: seq<Sport>, item: Sport, i: int)
    requires 0 <= i < |data| && data[i].id == item.id
    ensures Updated(data, item.id, EditForm(item))[i] == Sport(item.id, Upper(item.sport), item.ranks)
  {
    EditFormRanks(item);
  }

  /** With unique ids, re-saving an unchanged record whose label is in upper case changes nothing. */
  lemma EditThenUpdateUnchanged(data: seq<Sport>, item: Sport)
    requires UniqueIds(data) && item in data && Upper(item.sport) == item.sport
    ensures Updated(data, item.id, EditForm(item)) == data
  {
    var r := Updated(data, item.id, EditForm(item));
    var j :| 0 <= j < |data| && data[j] == item;
    forall i | 0 <= i < |data| ensures r[i] == data[i] {
      if data[i].id == item.id {
        assert i == j;
        EditThenUpdate(data, item, i);
      }
    }
  }

  /**
    Delete removes exactly the records carrying the id and keeps the others
    in their relative order: `idx` lists the kept positions in increasing
    order.
   */
  lemma DeleteRemovesExactly(data: seq<Sport>, id: int)
    ensures var r := Removed(data, id);
            var idx := Kept(data, (s: Sport) => s.id != id);
            && !HasId(r, id)
            && |r| == |idx|
            && (forall k :: 0 <= k < |idx| ==> 0 <= idx[k] < |data| && r[k] == data[idx[k]])
            && (forall k, l :: 0 <= k < l < |idx| ==> idx[k] < idx[l])
            && (forall i :: 0 <= i < |data| ==> (data[i].id != id <==> i in idx))
  {
    var keep := (s: Sport) => s.id != id;
    FilterIsSelection(data, keep);
    KeptSelects(data, keep);
    var r := Removed(data, id);
    forall i | 0 <= i < |r| ensures r[i].id != id {
      assert r[i] in r;
    }
  }

  /** Deleting keeps ids unique: what remains is a selection of the records, in order. */
  lemma DeleteKeepsIdsUnique(data: seq<Sport>, id: int)
    requires UniqueIds(data)
    ensures UniqueIds(Removed(data, id))
  {
    DeleteRemovesExactly(data, id);
  }

  /** Deleting an id no record carries leaves the records unchanged. */
  lemma DeleteAbsentId(data: seq<Sport>, id: int)
    requires !HasId(data, id)
    ensures Removed(data, id) == data
  {
    FilterKeepsAll(data, (s: Sport) => s.id != id);
  }

  // ---------------------------------------------------------------------
  // The component state
  // ---------------------------------------------------------------------

  /** The state the rankings component keeps, and its handlers. */
  class RankingsTable {
    var data: seq<Sport>
    var loading: bool
    var error: Option<string>
    var formData: FormData
    var editingSport: Option<Sport>
    var isAddDialogOpen: bool

    /** The records' ids are unique, as ingestion makes them and every handler keeps them. */
    predicate Valid()
      reads this
    {
      UniqueIds(data)
    }

    /** The initial state: no records, loading, no error, an empty form, nothing being edited. */
    constructor ()
      ensures data == [] && loading && error == None
      ensures formData == BlankForm && editingSport == None && !isAddDialogOpen
      ensures Valid()
    {
      data := [];
      loading := true;
      error := None;
      formData := BlankForm;
      editingSport := None;
      isAddDialogOpen := false;
    }

    /** fetchData: store the parsed records, or record the load error; loading ends either way. */
    method FetchData(outcome: FetchOutcome)
      modifies this`data, this`loading, this`error
      ensures outcome.Fetched? ==> data == Ingest(outcome.text) && error == old(error)
      ensures outcome.FetchFailed? ==> data == old(data) && error == Some(LoadError)
      ensures outcome.Fetched? ==> Valid()
      ensures old(Valid()) ==> Valid()
      ensures !loading
    {
      match outcome
      case Fetched(text) =>
        IngestIdsUnique(text);
        data := Ingest(text);
        loading := false;
      case FetchFailed =>
        error := Some(LoadError);
        loading := false;
    }

    /** resetForm: empty every input. */
    method ResetForm()
      modifies this`formData
      ensures formData == BlankForm
    {
      formData := BlankForm;
    }

    /**
      handleAdd: append a record built from the form with an id above every
      existing one, close the dialog and empty the form.
     */
    method HandleAdd()
      modifies this`data, this`isAddDialogOpen, this`formData
      ensures data == old(data) + [NewSport(old(data), old(formData))]
      ensures old(Valid()) ==> Valid()
      ensures formData == BlankForm && !isAddDialogOpen
    {
      var newSport := NewSport(data, formData);
      if UniqueIds(data) {
        AddKeepsIdsUnique(data, formData);
      }
      data := data + [newSport];
      isAddDialogOpen := false;
      ResetForm();
    }

    /**
      handleUpdate: with nothing being edited, nothing happens; otherwise the
      records carrying the edited id take the form's values, editing ends and
      the form is emptied.
     */
    method HandleUpdate()
      modifies this`data, this`editingSport, this`formData
      ensures old(editingSport).None? ==>
                data == old(data) && formData == old(formData) && editingSport == None
      ensures old(editingSport).Some? ==>
                && data == Updated(old(data), old(editingSport).value.id, old(formData))
                && formData == BlankForm && editingSport == None
      ensures old(Valid()) ==> Valid()
    {
      if editingSport.None? {
        return;
      }
      UpdateTouchesOnlyMatching(data, editingSport.value.id, formData);
      data := Updated(data, editingSport.value.id, formData);
      editingSport := None;
      ResetForm();
    }

    /** handleDelete: drop the records carrying the id. */
    method HandleDelete(id: int)
      modifies this`data
      ensures data == Removed(old(data), id)
      ensures !HasId(data, id)
      ensures old(Valid()) ==> Valid()
    {
      DeleteRemovesExactly(data, id);
      if UniqueIds(data) {
        DeleteKeepsIdsUnique(data, id);
      }
      data := Removed(data, id);
    }

    /** startEdit: remember the record and fill the form with its label and ranks as text. */
    method StartEdit(item: Sport)
      modifies this`editingSport, this`formData
      ensures editingSport == Some(item) && formData == EditForm(item)
    {
      editingSport := Some(item);
      formData := EditForm(item);
    }
  }
}
