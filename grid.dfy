/**
 * The `UserTable` form: the row list it keeps in its `data` field, and the
 * handlers that replace that list. Each handler computes the new list from
 * the current one and stores it, as `setValue("data", ...)` does.
 */
module Grid {
  import opened Rows
  import opened RowEdits
  import opened RowMoves

  class UserTable {
    /** The form's `data` value. */
    var data: seq<UserData>

    /** The form starts from the 100-row seed, nothing selected. */
    constructor ()
      ensures data == InitialData()
      ensures |data| == SeedSize && NoneSelected(data) && UniqueIds(data)
    {
      data := InitialData();
    }

    /** `addRow`; `now` is the clock reading that becomes the new row's id. */
    method AddRow(now: int)
      modifies this
      ensures data == RowEdits.AddRow(old(data), now)
      ensures |data| == |old(data)| + 1 && data[..|old(data)|] == old(data)
      ensures UniqueIds(data) <==> UniqueIds(old(data)) && !HasId(old(data), now)
    {
      AddRowUniqueIds(data, now);
      data := RowEdits.AddRow(data, now);
    }

    /** `moveRow(direction)`: the rows are only rearranged. */
    method MoveRow(direction: Direction)
      modifies this
      ensures data == Moved(old(data), direction)
      ensures multiset(data) == multiset(old(data))
      ensures UniqueIds(data) <==> UniqueIds(old(data))
    {
      MovedUniqueIds(data, direction);
      var newData := MoveRows(data, direction);
      data := newData;
    }

    /** `handleDelete(id)`: every row carrying `id` goes. */
    method HandleDelete(id: int)
      modifies this
      ensures data == Delete(old(data), id)
      ensures !HasId(data, id)
      ensures UniqueIds(old(data)) ==> UniqueIds(data)
    {
      if UniqueIds(data) {
        DeleteUniqueIds(data, id);
      }
      data := Delete(data, id);
    }

    /** `handleUpdate(id, key, value)`: every row carrying `id` gets `value` in column `key`. */
    method HandleUpdate(id: int, key: Key, value: string)
      modifies this
      ensures data == Update(old(data), id, key, value)
      ensures |data| == |old(data)|
      ensures UniqueIds(data) <==> UniqueIds(old(data))
    {
      UpdateUniqueIds(data, id, key, value);
      data := Update(data, id, key, value);
    }

    /** `handleSelect(id)`: a falsy id changes nothing, otherwise the flags of the rows carrying it flip. */
    method HandleSelect(id: Option<int>)
      modifies this
      ensures data == Select(old(data), id)
      ensures Falsy(id) ==> data == old(data)
      ensures UniqueIds(data) <==> UniqueIds(old(data))
    {
      SelectUniqueIds(data, id);
      data := Select(data, id);
    }
  }
}
