/**
 * The grid's row record and the sequence vocabulary the row operations are
 * specified with: reversal and the split of a list into its selected and its
 * unselected rows.
 */
module Rows {

  datatype Option<T> = None | Some(value: T)

  /** One grid row, the `UserData` record. */
  datatype UserData = UserData(
    id: int,
    name: string,
    email: string,
    department: string,
    description: string,
    selected: bool)

  /** The string-valued columns that an edit can target. */
  datatype Key = Name | Email | Department | Description

  function Field(row: UserData, key: Key): string
  {
    match key
    case Name => row.name
    case Email => row.email
    case Department => row.department
    case Description => row.description
  }

  /** The object spread `{ ...row, [key]: value }`. */
  function WithField(row: UserData, key: Key, value: string): (r: UserData)
    ensures Field(r, key) == value
    ensures forall k :: k != key ==> Field(r, k) == Field(row, k)
    ensures r.id == row.id && r.selected == row.selected
  {
    match key
    case Name => row.(name := value)
    case Email => row.(email := value)
    case Department => row.(department := value)
    case Description => row.(description := value)
  }

  // ---------------------------------------------------------------------------
  // Reversal

  function Reverse(s: seq<UserData>): (r: seq<UserData>)
    ensures |r| == |s|
  {
    if s == [] then [] else Reverse(s[1..]) + [s[0]]
  }

  /** Reading the reversal front to back is reading the list back to front. */
  lemma {:induction false} ReverseIndex(s: seq<UserData>)
    ensures forall k :: 0 <= k < |s| ==> Reverse(s)[k] == s[|s| - 1 - k]
  {
    if s != [] {
      ReverseIndex(s[1..]);
    }
  }

  lemma ReverseAppend(s: seq<UserData>, x: UserData)
    ensures Reverse(s + [x]) == [x] + Reverse(s)
  {
    var r, t := Reverse(s + [x]), [x] + Reverse(s);
    ReverseIndex(s + [x]);
    ReverseIndex(s);
    assert |r| == |t|;
    forall k | 0 <= k < |r| ensures r[k] == t[k] {
      if k > 0 {
        assert t[k] == Reverse(s)[k - 1];
      }
    }
  }

  lemma ReverseCons(x: UserData, s: seq<UserData>)
    ensures Reverse([x] + s) == Reverse(s) + [x]
  {
    assert ([x] + s)[1..] == s;
  }

  lemma ReverseConcat(a: seq<UserData>, b: seq<UserData>)
    ensures Reverse(a + b) == Reverse(b) + Reverse(a)
  {
    var r, t := Reverse(a + b), Reverse(b) + Reverse(a);
    ReverseIndex(a + b);
    ReverseIndex(a);
    ReverseIndex(b);
    assert |r| == |t|;
    forall k | 0 <= k < |r| ensures r[k] == t[k] {
      if k < |b| {
        assert t[k] == Reverse(b)[k];
      } else {
        assert t[k] == Reverse(a)[k - |b|];
      }
    }
  }

  lemma ReverseReverse(s: seq<UserData>)
    ensures Reverse(Reverse(s)) == s
  {
    var r := Reverse(Reverse(s));
    ReverseIndex(s);
    ReverseIndex(Reverse(s));
    assert |r| == |s|;
    forall k | 0 <= k < |s| ensures r[k] == s[k] {
      assert r[k] == Reverse(s)[|s| - 1 - k];
    }
  }

  lemma {:induction false} ReverseMultiset(s: seq<UserData>)
    ensures multiset(Reverse(s)) == multiset(s)
  {
    if s != [] {
      ReverseMultiset(s[1..]);
      assert s == [s[0]] + s[1..];
    }
  }

  // ---------------------------------------------------------------------------
  // Selected and unselected rows, each in their original order

  function SelectedRows(s: seq<UserData>): seq<UserData>
  {
    if s == [] then []
    else (if s[0].selected then [s[0]] else []) + SelectedRows(s[1..])
  }

  function UnselectedRows(s: seq<UserData>): seq<UserData>
  {
    if s == [] then []
    else (if s[0].selected then [] else [s[0]]) + UnselectedRows(s[1..])
  }

  predicate NoneSelected(s: seq<UserData>)
  {
    forall k :: 0 <= k < |s| ==> !s[k].selected
  }

  predicate AllSelected(s: seq<UserData>)
  {
    forall k :: 0 <= k < |s| ==> s[k].selected
  }

  /** The split puts each row on the side its flag says. */
  lemma {:induction false} SplitFlags(s: seq<UserData>)
    ensures AllSelected(SelectedRows(s)) && NoneSelected(UnselectedRows(s))
  {
    if s != [] {
      SplitFlags(s[1..]);
      var sel, unsel := SelectedRows(s[1..]), UnselectedRows(s[1..]);
      if s[0].selected {
        assert SelectedRows(s) == [s[0]] + sel && UnselectedRows(s) == unsel;
        assert forall k :: 0 < k <= |sel| ==> ([s[0]] + sel)[k] == sel[k - 1];
      } else {
        assert SelectedRows(s) == sel && UnselectedRows(s) == [s[0]] + unsel;
        assert forall k :: 0 < k <= |unsel| ==> ([s[0]] + unsel)[k] == unsel[k - 1];
      }
    }
  }

  /** Reversal keeps every row's flag, so it keeps either uniform split. */
  lemma ReverseFlags(s: seq<UserData>)
    ensures AllSelected(s) ==> AllSelected(Reverse(s))
    ensures NoneSelected(s) ==> NoneSelected(Reverse(s))
  {
    ReverseIndex(s);
  }

  lemma {:induction false} SelectedConcat(a: seq<UserData>, b: seq<UserData>)
    ensures SelectedRows(a + b) == SelectedRows(a) + SelectedRows(b)
    ensures UnselectedRows(a + b) == UnselectedRows(a) + UnselectedRows(b)
  {
    if a != [] {
      assert (a + b)[1..] == a[1..] + b;
      SelectedConcat(a[1..], b);
    } else {
      assert a + b == b;
    }
  }

  lemma {:induction false} SplitSizes(s: seq<UserData>)
    ensures |SelectedRows(s)| + |UnselectedRows(s)| == |s|
    ensures multiset(SelectedRows(s)) + multiset(UnselectedRows(s)) == multiset(s)
  {
    if s != [] {
      SplitSizes(s[1..]);
      assert s == [s[0]] + s[1..];
    }
  }

  lemma {:induction false} NoneSelectedSplit(s: seq<UserData>)
    requires NoneSelected(s)
    ensures SelectedRows(s) == [] && UnselectedRows(s) == s
  {
    if s != [] {
      NoneSelectedSplit(s[1..]);
      assert s == [s[0]] + s[1..];
    }
  }

  lemma {:induction false} AllSelectedSplit(s: seq<UserData>)
    requires AllSelected(s)
    ensures SelectedRows(s) == s && UnselectedRows(s) == []
  {
    if s != [] {
      AllSelectedSplit(s[1..]);
      assert s == [s[0]] + s[1..];
    }
  }

  lemma SelectedReverse(s: seq<UserData>)
    ensures SelectedRows(Reverse(s)) == Reverse(SelectedRows(s))
    ensures UnselectedRows(Reverse(s)) == Reverse(UnselectedRows(s))
  {
    if s != [] {
      SelectedReverse(s[1..]);
      SelectedConcat(Reverse(s[1..]), [s[0]]);
      assert s == [s[0]] + s[1..];
      SelectedConcat([s[0]], s[1..]);
      ReverseConcat(if s[0].selected then [s[0]] else [], SelectedRows(s[1..]));
      ReverseConcat(if s[0].selected then [] else [s[0]], UnselectedRows(s[1..]));
    }
  }

  // ---------------------------------------------------------------------------
  // The ids a list carries

  /** The rows' ids, in order. */
  function IdList(rows: seq<UserData>): seq<int>
  {
    seq(|rows|, k requires 0 <= k < |rows| => rows[k].id)
  }

  /** Cutting the row at `k` out removes one copy of it and one copy of its id. */
  lemma RemoveAt(b: seq<UserData>, k: int)
    requires 0 <= k < |b|
    ensures multiset(b) == multiset(b[..k] + b[k + 1..]) + multiset{b[k]}
    ensures multiset(IdList(b)) == multiset(IdList(b[..k] + b[k + 1..])) + multiset{b[k].id}
  {
    var l, r := b[..k], b[k + 1..];
    assert b == l + [b[k]] + r;
    assert IdList(b) == IdList(l) + [b[k].id] + IdList(r);
    assert IdList(l + r) == IdList(l) + IdList(r);
  }

  /** Rearranging the rows rearranges their ids. */
  lemma {:induction false} IdsPermutation(a: seq<UserData>, b: seq<UserData>)
    requires multiset(a) == multiset(b)
    ensures multiset(IdList(a)) == multiset(IdList(b))
    decreases |a|
  {
    if a == [] {
      assert |b| == |multiset(b)| == 0;
    } else {
      var x := a[0];
      RemoveAt(a, 0);
      assert a[..0] + a[1..] == a[1..];
      var k := IndexOf(b, x);
      var rest := b[..k] + b[k + 1..];
      RemoveAt(b, k);
      Cancel(multiset(a[1..]), multiset(rest), x);
      IdsPermutation(a[1..], rest);
    }
  }

  lemma IndexOf(b: seq<UserData>, x: UserData) returns (k: int)
    requires x in multiset(b)
    ensures 0 <= k < |b| && b[k] == x
  {
    assert x in b;
    k :| 0 <= k < |b| && b[k] == x;
  }

  lemma Cancel(m: multiset<UserData>, n: multiset<UserData>, x: UserData)
    requires m + multiset{x} == n + multiset{x}
    ensures m == n
  {
    forall y ensures m[y] == n[y] {
      assert (m + multiset{x})[y] == (n + multiset{x})[y];
    }
  }

  // ---------------------------------------------------------------------------
  // Unique ids

  predicate HasId(rows: seq<UserData>, id: int)
  {
    exists k :: 0 <= k < |rows| && rows[k].id == id
  }

  /** No two rows carry the same id. */
  predicate UniqueIds(rows: seq<UserData>)
  {
    forall i, j :: 0 <= i < j < |rows| ==> rows[i].id != rows[j].id
  }

  lemma UniqueIdsCons(x: UserData, s: seq<UserData>)
    ensures UniqueIds([x] + s) <==> !HasId(s, x.id) && UniqueIds(s)
  {
    var r := [x] + s;
    assert forall k :: 0 <= k < |s| ==> r[k + 1] == s[k];
    if UniqueIds(r) {
      forall k | 0 <= k < |s| ensures s[k].id != x.id {
        assert r[0] == x;
      }
    }
    if !HasId(s, x.id) && UniqueIds(s) {
      forall i, j | 0 <= i < j < |r| ensures r[i].id != r[j].id {
        assert r[j] == s[j - 1];
        if i > 0 {
          assert r[i] == s[i - 1];
        }
      }
    }
  }

  lemma UniqueIdsSnoc(s: seq<UserData>, x: UserData)
    ensures UniqueIds(s + [x]) <==> UniqueIds(s) && !HasId(s, x.id)
  {
    var r := s + [x];
    assert forall k :: 0 <= k < |s| ==> r[k] == s[k];
    if UniqueIds(r) {
      forall k | 0 <= k < |s| ensures s[k].id != x.id {
        assert r[|s|] == x;
      }
    }
  }

  /** Unique ids, counted: every id occurs at most once among the rows' ids. */
  lemma {:induction false} UniqueIdsCount(rows: seq<UserData>)
    ensures UniqueIds(rows) <==> forall v :: multiset(IdList(rows))[v] <= 1
  {
    if rows == [] {
      assert IdList(rows) == [];
    } else {
      var x, s := rows[0], rows[1..];
      assert rows == [x] + s;
      UniqueIdsCount(s);
      UniqueIdsCons(x, s);
      assert IdList(rows) == [x.id] + IdList(s);
      assert HasId(s, x.id) <==> x.id in IdList(s) by {
        if HasId(s, x.id) {
          var k :| 0 <= k < |s| && s[k].id == x.id;
          assert IdList(s)[k] == x.id;
        }
        if x.id in IdList(s) {
          var k :| 0 <= k < |s| && IdList(s)[k] == x.id;
          assert s[k].id == x.id;
        }
      }
      if forall v :: multiset(IdList(rows))[v] <= 1 {
        forall v ensures multiset(IdList(s))[v] <= 1 {
          assert multiset(IdList(rows))[v] <= 1;
        }
        assert multiset(IdList(rows))[x.id] <= 1;
      }
    }
  }

  /** Rearranging the rows neither creates nor removes a shared id. */
  lemma UniqueIdsPermutation(a: seq<UserData>, b: seq<UserData>)
    requires multiset(a) == multiset(b)
    ensures UniqueIds(a) <==> UniqueIds(b)
  {
    IdsPermutation(a, b);
    UniqueIdsCount(a);
    UniqueIdsCount(b);
  }
}
