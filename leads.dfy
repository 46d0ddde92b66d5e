/** The `leads` table as a sequence of rows in storage (rowid) order, with
    the queries and the delete the endpoints run against it. */
module Leads {
  import opened Validation

  /** One row of `leads(id, name, phone, source, created_at)`. */
  datatype Lead = Lead(id: nat, name: string, phone: string, source: string, createdAt: string)

  /** What a row holds when it was stored by the submission endpoint. */
  predicate WellFormed(l: Lead) {
    l.id >= 1 && l.name != [] && l.source != [] && IsTenDigitPhone(l.phone)
  }

  predicate AscendingIds(rows: seq<Lead>) {
    forall i, j :: 0 <= i < j < |rows| ==> rows[i].id < rows[j].id
  }

  predicate UniquePhones(rows: seq<Lead>) {
    forall i, j :: 0 <= i < j < |rows| ==> rows[i].phone != rows[j].phone
  }

  /** The table invariant: the primary key is unique and kept in increasing
      order, every id is below the AUTOINCREMENT counter `nextId`, no two
      rows share a phone, and every row passed validation. */
  predicate TableInvariant(rows: seq<Lead>, nextId: nat) {
    && nextId >= 1
    && AscendingIds(rows)
    && UniquePhones(rows)
    && (forall i :: 0 <= i < |rows| ==> rows[i].id < nextId && WellFormed(rows[i]))
  }

  /** `SELECT phone FROM leads WHERE phone = ?` returns a row. */
  predicate HasPhone(rows: seq<Lead>, phone: string) {
    exists i :: 0 <= i < |rows| && rows[i].phone == phone
  }

  /** Appending a validated row under a fresh id and an unused phone keeps
      the invariant. */
  lemma AppendKeepsInvariant(rows: seq<Lead>, nextId: nat, l: Lead)
    requires TableInvariant(rows, nextId)
    requires l.id == nextId && WellFormed(l) && !HasPhone(rows, l.phone)
    ensures TableInvariant(rows + [l], nextId + 1)
  {
    var rows' := rows + [l];
    forall i, j | 0 <= i < j < |rows'| ensures rows'[i].phone != rows'[j].phone {
      if j == |rows| {
        assert rows'[i] == rows[i];
      }
    }
  }

  /** `DELETE FROM leads WHERE id = ?`: the rows whose id differs, in their
      original order. */
  function DeleteById(rows: seq<Lead>, id: int): (r: seq<Lead>)
    ensures |r| <= |rows|
    ensures forall x :: x in r <==> x in rows && x.id != id
  {
    if rows == [] then []
    else if rows[0].id == id then DeleteById(rows[1..], id)
    else [rows[0]] + DeleteById(rows[1..], id)
  }

  /** Deleting keeps the table invariant: what survives keeps its order,
      so ids stay increasing and phones stay unique. */
  lemma {:induction false} DeleteKeepsInvariant(rows: seq<Lead>, nextId: nat, id: int)
    requires TableInvariant(rows, nextId)
    ensures TableInvariant(DeleteById(rows, id), nextId)
  {
    if rows != [] {
      var tail := rows[1..];
      var rest := DeleteById(tail, id);
      assert TableInvariant(tail, nextId);
      DeleteKeepsInvariant(tail, nextId, id);
      if rows[0].id != id {
        assert forall y :: y in rest ==> rows[0].id < y.id && rows[0].phone != y.phone by {
          forall y | y in rest ensures rows[0].id < y.id && rows[0].phone != y.phone {
            var k :| 0 <= k < |tail| && tail[k] == y;
            assert rows[k + 1] == y;
          }
        }
        ConsKeepsInvariant(rows[0], rest, nextId);
      }
    }
  }

  lemma ConsKeepsInvariant(h: Lead, t: seq<Lead>, nextId: nat)
    requires TableInvariant(t, nextId) && h.id < nextId && WellFormed(h)
    requires forall y :: y in t ==> h.id < y.id && h.phone != y.phone
    ensures TableInvariant([h] + t, nextId)
  {
    var r := [h] + t;
    forall i, j | 0 <= i < j < |r| ensures r[i].id < r[j].id && r[i].phone != r[j].phone {
      assert r[j] == t[j - 1] && t[j - 1] in t;
    }
  }

  /** Deleting an id that no row has leaves the table as it was. */
  lemma {:induction false} DeleteAbsentIsNoop(rows: seq<Lead>, id: int)
    requires forall i :: 0 <= i < |rows| ==> rows[i].id != id
    ensures DeleteById(rows, id) == rows
  {
    if rows != [] {
      assert rows == [rows[0]] + rows[1..];
      DeleteAbsentIsNoop(rows[1..], id);
    }
  }

  /** Repeating a delete changes nothing. */
  lemma DeleteTwiceIsDeleteOnce(rows: seq<Lead>, id: int)
    ensures DeleteById(DeleteById(rows, id), id) == DeleteById(rows, id)
  {
    var r := DeleteById(rows, id);
    forall i | 0 <= i < |r| ensures r[i].id != id {
      assert r[i] in r;
    }
    DeleteAbsentIsNoop(r, id);
  }

  /** Delete works row by row: the order of the surviving rows is kept. */
  lemma {:induction false} DeleteDistributes(a: seq<Lead>, b: seq<Lead>, id: int)
    ensures DeleteById(a + b, id) == DeleteById(a, id) + DeleteById(b, id)
  {
    if a != [] {
      assert (a + b)[1..] == a[1..] + b;
      DeleteDistributes(a[1..], b, id);
    } else {
      assert a + b == b;
    }
  }

  predicate DescendingIds(s: seq<Lead>) {
    forall i, j :: 0 <= i < j < |s| ==> s[i].id >= s[j].id
  }

  predicate StrictlyDescendingIds(s: seq<Lead>) {
    forall i, j :: 0 <= i < j < |s| ==> s[i].id > s[j].id
  }

  predicate DistinctIds(s: seq<Lead>) {
    forall i, j :: 0 <= i < j < |s| ==> s[i].id != s[j].id
  }

  lemma ConsDescending(h: Lead, t: seq<Lead>)
    requires DescendingIds(t) && forall y :: y in t ==> y.id <= h.id
    ensures DescendingIds([h] + t)
    ensures StrictlyDescendingIds(t) && (forall y :: y in t ==> y.id < h.id) ==> StrictlyDescendingIds([h] + t)
  {
    var r := [h] + t;
    forall i, j | 0 <= i < j < |r| ensures r[i].id >= r[j].id {
      assert r[j] == t[j - 1] && t[j - 1] in t;
    }
    if StrictlyDescendingIds(t) && (forall y :: y in t ==> y.id < h.id) {
      forall i, j | 0 <= i < j < |r| ensures r[i].id > r[j].id {
        assert r[j] == t[j - 1] && t[j - 1] in t;
      }
    }
  }

  lemma HeadBoundsTail(s: seq<Lead>)
    requires s != [] && DescendingIds(s)
    ensures forall y :: y in s[1..] ==> y.id <= s[0].id
    ensures StrictlyDescendingIds(s) ==> forall y :: y in s[1..] ==> y.id < s[0].id
  {
    forall y | y in s[1..] ensures y.id <= s[0].id && (StrictlyDescendingIds(s) ==> y.id < s[0].id) {
      var k :| 0 <= k < |s[1..]| && s[1..][k] == y;
      assert s[k + 1] == y;
    }
  }

  /** Places `x` into a list ordered by id descending, ahead of the first
      row whose id is not above its own. */
  function InsertByIdDesc(x: Lead, s: seq<Lead>): seq<Lead> {
    if s == [] || x.id >= s[0].id then [x] + s
    else [s[0]] + InsertByIdDesc(x, s[1..])
  }

  /** `ORDER BY id DESC`, as an insertion sort. */
  function SortByIdDesc(rows: seq<Lead>): seq<Lead> {
    if rows == [] then [] else InsertByIdDesc(rows[0], SortByIdDesc(rows[1..]))
  }

  /** Insertion keeps the list ordered and adds `x` and nothing else; with
      no id repeated, the order stays strict. */
  lemma {:induction false} InsertSpec(x: Lead, s: seq<Lead>)
    requires DescendingIds(s)
    ensures var r := InsertByIdDesc(x, s);
            && (forall y :: y in r <==> y in s || y == x)
            && DescendingIds(r)
            && (StrictlyDescendingIds(s) && (forall y :: y in s ==> y.id != x.id) ==> StrictlyDescendingIds(r))
  {
    if s == [] || x.id >= s[0].id {
      HeadBoundsTail([x] + s);
      assert ([x] + s)[1..] == s;
      ConsDescending(x, s);
    } else {
      var tail := s[1..];
      assert DescendingIds(tail);
      InsertSpec(x, tail);
      var rest := InsertByIdDesc(x, tail);
      assert s == [s[0]] + tail;
      HeadBoundsTail(s);
      ConsDescending(s[0], rest);
    }
  }

  /** The listing holds exactly the rows of the table, ordered by id
      descending, strictly so when no id is repeated. */
  lemma {:induction false} SortSpec(rows: seq<Lead>)
    ensures var r := SortByIdDesc(rows);
            && (forall y :: y in r <==> y in rows)
            && DescendingIds(r)
            && (DistinctIds(rows) ==> StrictlyDescendingIds(r))
  {
    if rows != [] {
      var tail := rows[1..];
      SortSpec(tail);
      var rest := SortByIdDesc(tail);
      assert rows == [rows[0]] + tail;
      assert DistinctIds(rows) ==> DistinctIds(tail) && forall y :: y in rest ==> y.id != rows[0].id by {
        if DistinctIds(rows) {
          forall y | y in rest ensures y.id != rows[0].id {
            var k :| 0 <= k < |tail| && tail[k] == y;
            assert rows[k + 1] == y;
          }
        }
      }
      InsertSpec(rows[0], rest);
    }
  }

  lemma {:induction false} InsertAddsOne(x: Lead, s: seq<Lead>)
    ensures multiset(InsertByIdDesc(x, s)) == multiset(s) + multiset{x}
  {
    if s != [] && x.id < s[0].id {
      InsertAddsOne(x, s[1..]);
      assert s == [s[0]] + s[1..];
    }
  }

  /** The listing is a permutation of the table: no row lost, none doubled. */
  lemma {:induction false} SortPermutes(rows: seq<Lead>)
    ensures multiset(SortByIdDesc(rows)) == multiset(rows)
  {
    if rows != [] {
      SortPermutes(rows[1..]);
      InsertAddsOne(rows[0], SortByIdDesc(rows[1..]));
      assert rows == [rows[0]] + rows[1..];
    }
  }

  /** `s` in reverse order. */
  function Reversed(s: seq<Lead>): seq<Lead> {
    if s == [] then [] else Reversed(s[1..]) + [s[0]]
  }

  /** A row whose id is below every listed id goes to the end of the listing. */
  lemma {:induction false} InsertSmallestLast(x: Lead, s: seq<Lead>)
    requires forall y :: y in s ==> x.id < y.id
    ensures InsertByIdDesc(x, s) == s + [x]
  {
    if s != [] {
      var tail := s[1..];
      assert x.id < s[0].id by { assert s[0] in s; }
      assert forall y :: y in tail ==> x.id < y.id by {
        forall y | y in tail ensures x.id < y.id {
          var k :| 0 <= k < |tail| && tail[k] == y;
          assert s[k + 1] == y;
        }
      }
      InsertSmallestLast(x, tail);
      assert s == [s[0]] + tail;
    }
  }

  /** Rows stored in increasing id order are listed newest first, that is
      in exactly the reverse of their storage order. */
  lemma {:induction false} ListingOfAscendingIsReversed(rows: seq<Lead>)
    requires AscendingIds(rows)
    ensures SortByIdDesc(rows) == Reversed(rows)
  {
    if rows != [] {
      var tail := rows[1..];
      assert AscendingIds(tail);
      ListingOfAscendingIsReversed(tail);
      SortSpec(tail);
      forall y | y in SortByIdDesc(tail) ensures rows[0].id < y.id {
        var k :| 0 <= k < |tail| && tail[k] == y;
        assert rows[k + 1] == y;
      }
      InsertSmallestLast(rows[0], SortByIdDesc(tail));
    }
  }

  /** `ListingOfAscendingIsReversed` as an implication, for callers that
      cannot assume the ordering. */
  lemma ListingIfAscending(rows: seq<Lead>)
    ensures AscendingIds(rows) ==> SortByIdDesc(rows) == Reversed(rows)
  {
    if AscendingIds(rows) {
      ListingOfAscendingIsReversed(rows);
    }
  }
}
