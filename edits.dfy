/**
 * The grid's single-expression row operations: the 100-row seed, appending a
 * row, and deleting, editing and (de)selecting the rows that carry an id.
 * Ids come from the seed and from a clock, so nothing makes them unique:
 * every operation that takes an id acts on all the rows that carry it.
 */
module RowEdits {
  import opened Rows
  import opened Numerals

  // ---------------------------------------------------------------------------
  // initialData

  const SeedSize: nat := 100

  const NameLabel: string := "사용자 "
  const DepartmentLabel: string := "부서 "
  const DescriptionLabel: string := "설명 "

  /** Row `i` of the seed (zero-based); its labels count from 1. */
  function SeedRow(i: nat): UserData
  {
    UserData(
      i + 1,
      NameLabel + Decimal(i + 1),
      "user" + Decimal(i + 1) + "@example.com",
      DepartmentLabel + Decimal(i % 10 + 1),
      DescriptionLabel + Decimal(i + 1),
      false)
  }

  /** The seed the form starts from. */
  function InitialData(): (r: seq<UserData>)
    ensures |r| == SeedSize
    ensures forall i :: 0 <= i < |r| ==> r[i].id == i + 1 && !r[i].selected
    ensures UniqueIds(r)
    ensures NoneSelected(r) && SelectedRows(r) == []
  {
    var r := seq(SeedSize, i requires 0 <= i => SeedRow(i));
    NoneSelectedSplit(r);
    r
  }

  /** Every seed row names one of ten departments, numbered 1 to 10, by index modulo 10. */
  lemma InitialDepartment(i: nat)
    requires i < SeedSize
    ensures var d := InitialData()[i].department;
      |d| > |DepartmentLabel| && d[..|DepartmentLabel|] == DepartmentLabel &&
      IsDigits(d[|DepartmentLabel|..]) &&
      DecimalValue(d[|DepartmentLabel|..]) == i % 10 + 1 &&
      1 <= DecimalValue(d[|DepartmentLabel|..]) <= 10
  {
    var n := i % 10 + 1;
    assert InitialData()[i] == SeedRow(i);
    var d := DepartmentLabel + Decimal(n);
    assert d[..|DepartmentLabel|] == DepartmentLabel;
    assert d[|DepartmentLabel|..] == Decimal(n);
    DecimalRoundTrip(n);
  }

  /** The seed's names are pairwise distinct too. */
  lemma InitialNamesDistinct(i: nat, j: nat)
    requires i < SeedSize && j < SeedSize && i != j
    ensures InitialData()[i].name != InitialData()[j].name
  {
    assert InitialData()[i] == SeedRow(i) && InitialData()[j] == SeedRow(j);
    var ni, nj := NameLabel + Decimal(i + 1), NameLabel + Decimal(j + 1);
    if ni == nj {
      assert ni[|NameLabel|..] == Decimal(i + 1) && nj[|NameLabel|..] == Decimal(j + 1);
      DecimalInjective(i + 1, j + 1);
    }
  }

  // ---------------------------------------------------------------------------
  // addRow

  /** The row `addRow` creates; `now` stands for the clock reading used as its id. */
  function NewRow(now: int): UserData
  {
    UserData(now, "새 사용자", "newuser@example.com", "새 부서", "새 설명", false)
  }

  function AddRow(rows: seq<UserData>, now: int): (r: seq<UserData>)
    ensures |r| == |rows| + 1 && r[..|rows|] == rows
    ensures r[|rows|] == NewRow(now)
    ensures r[|rows|].id == now && !r[|rows|].selected
    ensures SelectedRows(r) == SelectedRows(rows)
  {
    SelectedConcat(rows, [NewRow(now)]);
    rows + [NewRow(now)]
  }

  /** The new row keeps the ids unique exactly when no row already carries the clock reading. */
  lemma AddRowUniqueIds(rows: seq<UserData>, now: int)
    ensures UniqueIds(AddRow(rows, now)) <==> UniqueIds(rows) && !HasId(rows, now)
  {
    UniqueIdsSnoc(rows, NewRow(now));
  }

  // ---------------------------------------------------------------------------
  // handleDelete

  /** `rows.filter(item => item.id !== id)`. */
  function Delete(rows: seq<UserData>, id: int): (r: seq<UserData>)
    ensures !HasId(r, id)
    ensures forall x :: x in r <==> x in rows && x.id != id
    ensures |r| <= |rows|
  {
    if rows == [] then []
    else (if rows[0].id == id then [] else [rows[0]]) + Delete(rows[1..], id)
  }

  /** Deleting keeps the order of what remains: it works piecewise on a concatenation. */
  lemma {:induction false} DeleteConcat(a: seq<UserData>, b: seq<UserData>, id: int)
    ensures Delete(a + b, id) == Delete(a, id) + Delete(b, id)
  {
    if a == [] {
      assert a + b == b;
    } else {
      assert (a + b)[1..] == a[1..] + b;
      DeleteConcat(a[1..], b, id);
    }
  }

  /** Deleting changes the list exactly when some row carries the id. */
  lemma {:induction false} DeleteUnchangedIff(rows: seq<UserData>, id: int)
    ensures Delete(rows, id) == rows <==> !HasId(rows, id)
  {
    if rows != [] {
      DeleteUnchangedIff(rows[1..], id);
      if rows[0].id != id {
        assert HasId(rows, id) <==> HasId(rows[1..], id) by {
          if HasId(rows, id) {
            var k :| 0 <= k < |rows| && rows[k].id == id;
            assert rows[1..][k - 1].id == id;
          }
          if HasId(rows[1..], id) {
            var k :| 0 <= k < |rows| - 1 && rows[1..][k].id == id;
            assert rows[k + 1].id == id;
          }
        }
        assert Delete(rows, id) == [rows[0]] + Delete(rows[1..], id);
      } else {
        assert Delete(rows, id) != rows by {
          assert |Delete(rows[1..], id)| <= |rows| - 1;
        }
      }
    }
  }

  /** Deleting removes every copy of every row carrying the id and no copy of any other row. */
  lemma {:induction false} DeleteMultiset(rows: seq<UserData>, id: int)
    ensures forall x :: multiset(Delete(rows, id))[x] == if x.id == id then 0 else multiset(rows)[x]
  {
    if rows != [] {
      DeleteMultiset(rows[1..], id);
      assert rows == [rows[0]] + rows[1..];
    }
  }

  /** Deleting never makes two rows share an id. */
  lemma {:induction false} DeleteUniqueIds(rows: seq<UserData>, id: int)
    requires UniqueIds(rows)
    ensures UniqueIds(Delete(rows, id))
  {
    if rows != [] {
      var h, t := rows[0], rows[1..];
      assert rows == [h] + t;
      UniqueIdsCons(h, t);
      DeleteUniqueIds(t, id);
      if h.id != id {
        var d := Delete(t, id);
        assert Delete(rows, id) == [h] + d;
        forall k | 0 <= k < |d| ensures d[k].id != h.id {
          assert d[k] in d;
        }
        UniqueIdsCons(h, d);
      }
    }
  }

  lemma DeleteIdempotent(rows: seq<UserData>, id: int)
    ensures Delete(Delete(rows, id), id) == Delete(rows, id)
  {
    DeleteUnchangedIff(Delete(rows, id), id);
  }

  /** A row added and then deleted by its own id leaves just the other rows with that id removed. */
  lemma DeleteAddedRow(rows: seq<UserData>, now: int)
    ensures Delete(AddRow(rows, now), now) == Delete(rows, now)
    ensures !HasId(rows, now) ==> Delete(AddRow(rows, now), now) == rows
  {
    DeleteConcat(rows, [NewRow(now)], now);
    assert Delete([NewRow(now)], now) == [];
    DeleteUnchangedIff(rows, now);
  }

  // ---------------------------------------------------------------------------
  // handleUpdate

  /** `rows.map(item => item.id === id ? { ...item, [key]: value } : item)`. */
  function Update(rows: seq<UserData>, id: int, key: Key, value: string): (r: seq<UserData>)
    ensures |r| == |rows|
    ensures forall k :: 0 <= k < |rows| && rows[k].id != id ==> r[k] == rows[k]
    ensures forall k :: 0 <= k < |rows| && rows[k].id == id ==>
      Field(r[k], key) == value &&
      r[k].id == id && r[k].selected == rows[k].selected &&
      forall other :: other != key ==> Field(r[k], other) == Field(rows[k], other)
  {
    seq(|rows|, k requires 0 <= k < |rows| =>
      if rows[k].id == id then WithField(rows[k], key, value) else rows[k])
  }

  /** Editing keeps every row's id, so it keeps the ids unique or not. */
  lemma UpdateUniqueIds(rows: seq<UserData>, id: int, key: Key, value: string)
    ensures UniqueIds(Update(rows, id, key, value)) <==> UniqueIds(rows)
  {
    var r := Update(rows, id, key, value);
    assert forall k :: 0 <= k < |rows| ==> r[k].id == rows[k].id;
  }

  /** Two rows that agree on id, selection and every column are the same row. */
  lemma RowsEqual(x: UserData, y: UserData)
    requires x.id == y.id && x.selected == y.selected
    requires forall k :: Field(x, k) == Field(y, k)
    ensures x == y
  {
    assert Field(x, Name) == Field(y, Name);
    assert Field(x, Email) == Field(y, Email);
    assert Field(x, Department) == Field(y, Department);
    assert Field(x, Description) == Field(y, Description);
  }

  /** Repeating an edit changes nothing more. */
  lemma UpdateIdempotent(rows: seq<UserData>, id: int, key: Key, value: string)
    ensures Update(Update(rows, id, key, value), id, key, value) == Update(rows, id, key, value)
  {
    var once := Update(rows, id, key, value);
    var twice := Update(once, id, key, value);
    forall k | 0 <= k < |rows| ensures twice[k] == once[k] {
      if rows[k].id == id {
        forall c ensures Field(twice[k], c) == Field(once[k], c) {
          if c != key {
            assert Field(twice[k], c) == Field(rows[k], c);
          }
        }
        RowsEqual(twice[k], once[k]);
      }
    }
  }

  /** Editing works piecewise on a concatenation. */
  lemma UpdateConcat(a: seq<UserData>, b: seq<UserData>, id: int, key: Key, value: string)
    ensures Update(a + b, id, key, value) == Update(a, id, key, value) + Update(b, id, key, value)
  {
    var l, r := Update(a + b, id, key, value), Update(a, id, key, value) + Update(b, id, key, value);
    assert |l| == |r|;
    forall k | 0 <= k < |l| ensures l[k] == r[k] {
      if k < |a| {
        assert r[k] == Update(a, id, key, value)[k];
      } else {
        assert r[k] == Update(b, id, key, value)[k - |a|];
      }
    }
  }

  /** Editing keeps every id, so deleting and editing can be done in either order. */
  lemma {:induction false} DeleteAfterUpdate(rows: seq<UserData>, id: int, key: Key, value: string, gone: int)
    ensures Delete(Update(rows, id, key, value), gone) == Update(Delete(rows, gone), id, key, value)
  {
    if rows != [] {
      var head := Update([rows[0]], id, key, value);
      assert rows == [rows[0]] + rows[1..];
      UpdateConcat([rows[0]], rows[1..], id, key, value);
      DeleteConcat(head, Update(rows[1..], id, key, value), gone);
      DeleteAfterUpdate(rows[1..], id, key, value, gone);
      var front := if rows[0].id == gone then [] else [rows[0]];
      assert Delete(rows, gone) == front + Delete(rows[1..], gone);
      UpdateConcat(front, Delete(rows[1..], gone), id, key, value);
      assert Delete(head, gone) == Update(front, id, key, value) by {
        assert head[0].id == rows[0].id;
        assert Delete(head, gone) == (if head[0].id == gone then [] else [head[0]]) + Delete([], gone);
      }
    }
  }

  // ---------------------------------------------------------------------------
  // handleSelect

  /** JavaScript's `!id` for an optional numeric id: absent or zero. */
  predicate Falsy(id: Option<int>)
  {
    id.None? || id.value == 0
  }

  /**
   * `handleSelect(id)`: a falsy id leaves the list alone, otherwise
   * `rows.map(item => item.id === id ? { ...item, selected: !item.selected } : item)`.
   */
  function Select(rows: seq<UserData>, id: Option<int>): (r: seq<UserData>)
    ensures Falsy(id) ==> r == rows
    ensures |r| == |rows|
    ensures forall k :: 0 <= k < |rows| ==>
      r[k].(selected := rows[k].selected) == rows[k] &&
      (r[k].selected != rows[k].selected <==> !Falsy(id) && rows[k].id == id.value)
  {
    if Falsy(id) then
      rows
    else
      seq(|rows|, k requires 0 <= k < |rows| =>
        if rows[k].id == id.value then rows[k].(selected := !rows[k].selected) else rows[k])
  }

  /** Toggling the same id twice restores the list. */
  lemma SelectTwice(rows: seq<UserData>, id: Option<int>)
    ensures Select(Select(rows, id), id) == rows
  {
    var twice := Select(Select(rows, id), id);
    forall k | 0 <= k < |rows| ensures twice[k] == rows[k] {
      assert twice[k].(selected := rows[k].selected) == rows[k];
    }
  }

  /** Selecting keeps every row's id, so it keeps the ids unique or not. */
  lemma SelectUniqueIds(rows: seq<UserData>, id: Option<int>)
    ensures UniqueIds(Select(rows, id)) <==> UniqueIds(rows)
  {
    var r := Select(rows, id);
    forall k | 0 <= k < |rows| ensures r[k].id == rows[k].id {
      assert r[k].(selected := rows[k].selected) == rows[k];
    }
  }

  /** Toggling works piecewise on a concatenation. */
  lemma SelectConcat(a: seq<UserData>, b: seq<UserData>, id: Option<int>)
    ensures Select(a + b, id) == Select(a, id) + Select(b, id)
  {
    var l, r := Select(a + b, id), Select(a, id) + Select(b, id);
    assert |l| == |r|;
    forall k | 0 <= k < |l| ensures l[k] == r[k] {
      if k < |a| {
        assert r[k] == Select(a, id)[k] && (a + b)[k] == a[k];
      } else {
        assert r[k] == Select(b, id)[k - |a|] && (a + b)[k] == b[k - |a|];
      }
    }
  }

  /** Toggling keeps every id, so deleting and toggling can be done in either order. */
  lemma {:induction false} DeleteAfterSelect(rows: seq<UserData>, id: Option<int>, gone: int)
    ensures Delete(Select(rows, id), gone) == Select(Delete(rows, gone), id)
  {
    if rows != [] {
      var s := Select(rows, id);
      assert rows == [rows[0]] + rows[1..];
      SelectConcat([rows[0]], rows[1..], id);
      var head := Select([rows[0]], id);
      assert head[0].id == rows[0].id by {
        assert head[0].(selected := rows[0].selected) == rows[0];
      }
      DeleteConcat(head, Select(rows[1..], id), gone);
      DeleteAfterSelect(rows[1..], id, gone);
      var front := if rows[0].id == gone then [] else [rows[0]];
      assert Delete(rows, gone) == front + Delete(rows[1..], gone);
      SelectConcat(front, Delete(rows[1..], gone), id);
      assert Delete(head, gone) == Select(front, id) by {
        assert Delete(head, gone) == (if head[0].id == gone then [] else [head[0]]) + Delete([], gone);
      }
    }
  }
}
