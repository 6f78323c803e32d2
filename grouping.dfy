/**
 * Grouping the contribution rows into `apas`: APA name -> mailing number ->
 * the rows of that mailing, built by insert-or-create and append.
 */
module Grouping {
  import opened Wrappers
  import opened Columns
  import opened Membership

  type Table = map<string, map<string, seq<Row>>>

  /** Every row has a cell at column `col`. */
  predicate HasColumn(rows: seq<Row>, col: nat) {
    forall i :: 0 <= i < |rows| ==> col < |rows[i]|
  }

  function Repeat(row: Row, k: nat): (r: seq<Row>)
    ensures |r| == k && forall i :: 0 <= i < k ==> r[i] == row
  {
    if k == 0 then [] else Repeat(row, k - 1) + [row]
  }

  /** Each row repeated as many times as its count says, in row order. */
  function Expand(rows: seq<Row>, counts: seq<nat>): seq<Row>
    requires |rows| == |counts|
    decreases |rows|
  {
    if rows == [] then []
    else Expand(rows[..|rows| - 1], counts[..|rows| - 1]) + Repeat(rows[|rows| - 1], counts[|rows| - 1])
  }

  /** How many times the cell of `row` assigns it to (`a`, `n`). */
  function CopiesOf(row: Row, col: nat, apas: seq<string>, a: string, n: string): nat
    requires col < |row| && PlainNames(apas)
  {
    multiset(Assignments(row[col], apas))[(a, n)]
  }

  /** How many times the cell of each row assigns it to (`a`, `n`). */
  function Copies(rows: seq<Row>, col: nat, apas: seq<string>, a: string, n: string): (r: seq<nat>)
    requires HasColumn(rows, col) && PlainNames(apas)
    ensures |r| == |rows|
  {
    seq(|rows|, i requires 0 <= i < |rows| => CopiesOf(rows[i], col, apas, a, n))
  }

  /** The rows that belong under APA `a`, mailing `n`: each row, in input
      order, once for every assignment of its "Mailings" cell to (`a`, `n`). */
  function Listed(rows: seq<Row>, col: nat, apas: seq<string>, a: string, n: string): seq<Row>
    requires HasColumn(rows, col) && PlainNames(apas)
  {
    Expand(rows, Copies(rows, col, apas, a, n))
  }

  lemma {:induction false} ExpandInOrder(rows: seq<Row>, counts: seq<nat>) returns (from: seq<nat>)
    requires |rows| == |counts|
    ensures |from| == |Expand(rows, counts)|
    ensures forall k :: 0 <= k < |from| ==> from[k] < |rows| && Expand(rows, counts)[k] == rows[from[k]]
    ensures forall k :: 0 <= k < |from| ==> counts[from[k]] > 0
    ensures forall k, l :: 0 <= k <= l < |from| ==> from[k] <= from[l]
    decreases |rows|
  {
    if rows == [] {
      from := [];
    } else {
      var m := |rows| - 1;
      var earlier := ExpandInOrder(rows[..m], counts[..m]);
      from := earlier + seq(counts[m], _ => m);
      var e := Expand(rows, counts);
      assert e == Expand(rows[..m], counts[..m]) + Repeat(rows[m], counts[m]);
      forall k | 0 <= k < |from|
        ensures from[k] < |rows| && e[k] == rows[from[k]] && counts[from[k]] > 0
      {
        if k < |earlier| {
          assert rows[earlier[k]] == rows[..m][earlier[k]];
          assert counts[earlier[k]] == counts[..m][earlier[k]];
        }
      }
    }
  }

  lemma {:induction false} ExpandConcat(r1: seq<Row>, c1: seq<nat>, r2: seq<Row>, c2: seq<nat>)
    requires |r1| == |c1| && |r2| == |c2|
    ensures Expand(r1 + r2, c1 + c2) == Expand(r1, c1) + Expand(r2, c2)
    decreases |r2|
  {
    if r2 == [] {
      assert r1 + r2 == r1 && c1 + c2 == c1;
    } else {
      var m := |r2| - 1;
      ExpandConcat(r1, c1, r2[..m], c2[..m]);
      assert (r1 + r2)[..|r1 + r2| - 1] == r1 + r2[..m];
      assert (c1 + c2)[..|c1 + c2| - 1] == c1 + c2[..m];
    }
  }

  lemma {:induction false} ExpandEmpty(rows: seq<Row>, counts: seq<nat>)
    requires |rows| == |counts|
    ensures Expand(rows, counts) == [] <==> forall i :: 0 <= i < |counts| ==> counts[i] == 0
    decreases |rows|
  {
    if rows != [] {
      var m := |rows| - 1;
      ExpandEmpty(rows[..m], counts[..m]);
      assert forall i :: 0 <= i < m ==> counts[..m][i] == counts[i];
    }
  }

  /** Rows are listed in input order: every listed row is an input row whose
      cell assigns it to (`a`, `n`), and the positions they come from never
      go back. */
  lemma ListedInRowOrder(rows: seq<Row>, col: nat, apas: seq<string>, a: string, n: string)
    returns (from: seq<nat>)
    requires HasColumn(rows, col) && PlainNames(apas)
    ensures |from| == |Listed(rows, col, apas, a, n)|
    ensures forall k :: 0 <= k < |from| ==> from[k] < |rows| && Listed(rows, col, apas, a, n)[k] == rows[from[k]]
    ensures forall k :: 0 <= k < |from| ==> (a, n) in Assignments(rows[from[k]][col], apas)
    ensures forall k, l :: 0 <= k <= l < |from| ==> from[k] <= from[l]
  {
    var counts := Copies(rows, col, apas, a, n);
    from := ExpandInOrder(rows, counts);
    forall k | 0 <= k < |from| ensures (a, n) in Assignments(rows[from[k]][col], apas) {
      assert counts[from[k]] > 0;
    }
  }

  /** The rows are grouped independently: listing two runs of rows one after
      the other gives the two lists one after the other. */
  lemma ListedConcat(first: seq<Row>, second: seq<Row>, col: nat, apas: seq<string>, a: string, n: string)
    requires HasColumn(first, col) && HasColumn(second, col) && PlainNames(apas)
    ensures HasColumn(first + second, col)
    ensures Listed(first + second, col, apas, a, n) == Listed(first, col, apas, a, n) + Listed(second, col, apas, a, n)
  {
    assert HasColumn(first + second, col) by {
      forall i | 0 <= i < |first + second| ensures col < |(first + second)[i]| {
        if i >= |first| {
          assert (first + second)[i] == second[i - |first|];
        }
      }
    }
    var c1, c2 := Copies(first, col, apas, a, n), Copies(second, col, apas, a, n);
    var c := Copies(first + second, col, apas, a, n);
    forall i | 0 <= i < |c| ensures c[i] == (c1 + c2)[i] {
      if i < |first| {
        assert (first + second)[i] == first[i];
      } else {
        assert (first + second)[i] == second[i - |first|];
      }
    }
    assert c == c1 + c2;
    ExpandConcat(first, c1, second, c2);
  }

  /** One row is listed under (`a`, `n`) once for every token of its cell
      that matches the known APA `a` capturing `n`, when no APA is listed
      twice among the known ones. */
  lemma ListedOneRow(row: Row, col: nat, apas: seq<string>, a: string, n: string)
    requires col < |row| && PlainNames(apas) && Distinct(apas) && a in apas
    ensures HasColumn([row], col)
    ensures Listed([row], col, apas, a, n) == Repeat(row, CountMatches(Tokens(row[col]), a, n))
  {
    assert HasColumn([row], col);
    ListedSnoc([row], col, apas, a, n);
    assert [row][..0] == [];
    AssignmentsCount(row[col], apas, a, n);
  }

  /** Nothing is listed under (`a`, `n`) exactly when no row's cell assigns
      its row there. */
  lemma ListedEmpty(rows: seq<Row>, col: nat, apas: seq<string>, a: string, n: string)
    requires HasColumn(rows, col) && PlainNames(apas)
    ensures Listed(rows, col, apas, a, n) == [] <==>
      forall i :: 0 <= i < |rows| ==> (a, n) !in Assignments(rows[i][col], apas)
  {
    var counts := Copies(rows, col, apas, a, n);
    ExpandEmpty(rows, counts);
    forall i | 0 <= i < |rows| ensures counts[i] == 0 <==> (a, n) !in Assignments(rows[i][col], apas) {
      assert counts[i] == CopiesOf(rows[i], col, apas, a, n);
    }
  }

  /** The rows a table holds under (`a`, `n`); none when either key is missing. */
  function Lookup(t: Table, a: string, n: string): seq<Row> {
    if a in t && n in t[a] then t[a][n] else []
  }

  /** No APA maps to an empty dictionary and no mailing to an empty list. */
  predicate NoEmptyEntries(t: Table) {
    forall a :: a in t ==> t[a] != map[] && forall n :: n in t[a] ==> t[a][n] != []
  }

  /** The table after `row` is appended under (`a`, `n`), creating the APA
      entry and the mailing entry first where they are missing. */
  function Appended(t: Table, a: string, n: string, row: Row): Table {
    t[a := (if a in t then t[a] else map[])[n := Lookup(t, a, n) + [row]]]
  }

  /** `row` appended, in order, once for every assignment in `done`. */
  function Apply(t: Table, row: Row, done: seq<(string, string)>): Table
    decreases |done|
  {
    if done == [] then t
    else
      var last := done[|done| - 1];
      Appended(Apply(t, row, done[..|done| - 1]), last.0, last.1, row)
  }

  /** The table built from the first rows: each row appended for each of its
      assignments, row after row. */
  function Build(rows: seq<Row>, col: nat, apas: seq<string>): Table
    requires HasColumn(rows, col) && PlainNames(apas)
    decreases |rows|
  {
    if rows == [] then map[]
    else
      var last := rows[|rows| - 1];
      Apply(Build(rows[..|rows| - 1], col, apas), last, Assignments(last[col], apas))
  }

  lemma AppendedShape(t: Table, a: string, n: string, row: Row)
    ensures NoEmptyEntries(t) ==> NoEmptyEntries(Appended(t, a, n, row))
    ensures Appended(t, a, n, row).Keys == t.Keys + {a}
  {
    var u := Appended(t, a, n, row);
    assert n in u[a] && u[a][n] != [];
  }

  lemma AppendedAt(t: Table, a: string, n: string, row: Row, a': string, n': string)
    ensures Lookup(Appended(t, a, n, row), a', n') ==
      if (a', n') == (a, n) then Lookup(t, a', n') + [row] else Lookup(t, a', n')
  {
  }

  /** Applying assignments to known APAs keeps the table free of empty
      entries and of keys that are not known APAs. */
  lemma {:induction false} ApplyShape(t: Table, row: Row, done: seq<(string, string)>, known: seq<string>)
    requires forall i :: 0 <= i < |done| ==> done[i].0 in known
    ensures NoEmptyEntries(t) ==> NoEmptyEntries(Apply(t, row, done))
    ensures (forall a :: a in t ==> a in known) ==> forall a :: a in Apply(t, row, done) ==> a in known
    decreases |done|
  {
    if done != [] {
      var init, last := done[..|done| - 1], done[|done| - 1];
      assert forall i :: 0 <= i < |init| ==> init[i] == done[i];
      ApplyShape(t, row, init, known);
      AppendedShape(Apply(t, row, init), last.0, last.1, row);
    }
  }

  /** One more append under (`a`, `n`) adds one more copy of the row there. */
  lemma AppendedCount(u: Table, t: Table, row: Row, last: (string, string), a: string, n: string, c: nat)
    requires Lookup(u, a, n) == Lookup(t, a, n) + Repeat(row, c)
    ensures Lookup(Appended(u, last.0, last.1, row), a, n) ==
      Lookup(t, a, n) + Repeat(row, c + if (a, n) == last then 1 else 0)
  {
    AppendedAt(u, last.0, last.1, row, a, n);
    if (a, n) == last {
      assert Repeat(row, c + 1) == Repeat(row, c) + [row];
      assert (Lookup(t, a, n) + Repeat(row, c)) + [row] == Lookup(t, a, n) + (Repeat(row, c) + [row]);
    }
  }

  /** Under each pair of keys, applying `done` appends `row` once per
      occurrence of that pair in `done`. */
  lemma {:induction false} ApplyAt(t: Table, row: Row, done: seq<(string, string)>, a: string, n: string)
    ensures Lookup(Apply(t, row, done), a, n) == Lookup(t, a, n) + Repeat(row, multiset(done)[(a, n)])
    decreases |done|
  {
    if done != [] {
      var init, last := done[..|done| - 1], done[|done| - 1];
      assert Apply(t, row, done) == Appended(Apply(t, row, init), last.0, last.1, row);
      ApplyAt(t, row, init, a, n);
      assert multiset(done)[(a, n)] == multiset(init)[(a, n)] + if (a, n) == last then 1 else 0 by {
        assert done == init + [last];
      }
      AppendedCount(Apply(t, row, init), t, row, last, a, n, multiset(init)[(a, n)]);
    }
  }

  lemma {:induction false} ApplyConcat(t: Table, row: Row, first: seq<(string, string)>, second: seq<(string, string)>)
    ensures Apply(t, row, first + second) == Apply(Apply(t, row, first), row, second)
    decreases |second|
  {
    if second == [] {
      assert first + second == first;
    } else {
      var init := second[..|second| - 1];
      ApplyConcat(t, row, first, init);
      assert (first + second)[..|first + second| - 1] == first + init;
    }
  }

  lemma ListedSnoc(rows: seq<Row>, col: nat, apas: seq<string>, a: string, n: string)
    requires rows != [] && HasColumn(rows, col) && PlainNames(apas)
    ensures var init, last := rows[..|rows| - 1], rows[|rows| - 1];
      Listed(rows, col, apas, a, n) ==
        Listed(init, col, apas, a, n) + Repeat(last, CopiesOf(last, col, apas, a, n))
  {
    var m := |rows| - 1;
    var init := rows[..m];
    assert HasColumn(init, col) by {
      forall i | 0 <= i < m ensures col < |init[i]| {
        assert init[i] == rows[i];
      }
    }
    var c, ci := Copies(rows, col, apas, a, n), Copies(init, col, apas, a, n);
    forall i | 0 <= i < m ensures c[i] == ci[i] {
      assert init[i] == rows[i];
    }
    assert c[..m] == ci;
  }

  /** The specification of the grouping: under every pair of keys the table
      holds exactly the listed rows, and it has no empty entry and no key
      that is not a known APA. */
  lemma {:induction false} BuildSpec(rows: seq<Row>, col: nat, apas: seq<string>)
    requires HasColumn(rows, col) && PlainNames(apas)
    ensures NoEmptyEntries(Build(rows, col, apas))
    ensures forall a :: a in Build(rows, col, apas) ==> a in apas
    ensures forall a, n :: Lookup(Build(rows, col, apas), a, n) == Listed(rows, col, apas, a, n)
  {
    BuildShape(rows, col, apas);
    forall a, n ensures Lookup(Build(rows, col, apas), a, n) == Listed(rows, col, apas, a, n) {
      BuildLookup(rows, col, apas, a, n);
    }
  }

  /** No empty entry and no key that is not a known APA, row by row. */
  lemma {:induction false} BuildShape(rows: seq<Row>, col: nat, apas: seq<string>)
    requires HasColumn(rows, col) && PlainNames(apas)
    ensures NoEmptyEntries(Build(rows, col, apas))
    ensures forall a :: a in Build(rows, col, apas) ==> a in apas
    decreases |rows|
  {
    if rows != [] {
      var init, last := rows[..|rows| - 1], rows[|rows| - 1];
      BuildLast(rows, col, apas);
      BuildShape(init, col, apas);
      StepShape(Build(init, col, apas), last, col, apas);
    }
  }

  /** Appending one row for its assignments keeps the table free of empty
      entries and of keys that are not known APAs. */
  lemma StepShape(prev: Table, row: Row, col: nat, apas: seq<string>)
    requires col < |row| && PlainNames(apas)
    requires NoEmptyEntries(prev) && forall a :: a in prev ==> a in apas
    ensures NoEmptyEntries(Apply(prev, row, Assignments(row[col], apas)))
    ensures forall a :: a in Apply(prev, row, Assignments(row[col], apas)) ==> a in apas
  {
    var done := Assignments(row[col], apas);
    forall i | 0 <= i < |done| ensures done[i].0 in apas {
      AssignmentsMember(row[col], apas, done[i].0, done[i].1);
    }
    ApplyShape(prev, row, done, apas);
  }

  /** The listed rows under one pair of keys, row by row. */
  lemma {:induction false} BuildLookup(rows: seq<Row>, col: nat, apas: seq<string>, a: string, n: string)
    requires HasColumn(rows, col) && PlainNames(apas)
    ensures Lookup(Build(rows, col, apas), a, n) == Listed(rows, col, apas, a, n)
    decreases |rows|
  {
    if rows != [] {
      var init, last := rows[..|rows| - 1], rows[|rows| - 1];
      BuildLast(rows, col, apas);
      BuildLookup(init, col, apas, a, n);
      StepLookup(Build(init, col, apas), rows, col, apas, a, n);
    }
  }

  /** Appending the last row for its assignments extends what is listed
      under (`a`, `n`) for the rows before it to what is listed for all. */
  lemma StepLookup(prev: Table, rows: seq<Row>, col: nat, apas: seq<string>, a: string, n: string)
    requires rows != [] && HasColumn(rows, col) && PlainNames(apas)
    requires HasColumn(rows[..|rows| - 1], col)
    requires Lookup(prev, a, n) == Listed(rows[..|rows| - 1], col, apas, a, n)
    ensures Lookup(Apply(prev, rows[|rows| - 1], Assignments(rows[|rows| - 1][col], apas)), a, n)
      == Listed(rows, col, apas, a, n)
  {
    var last := rows[|rows| - 1];
    ApplyAt(prev, last, Assignments(last[col], apas), a, n);
    ListedSnoc(rows, col, apas, a, n);
  }

  /** The three statements of the grouping loop's body, one function each:
      create the APA entry if missing, create the mailing entry if missing,
      append the row. */
  function EnsureApa(t: Table, a: string): (r: Table)
    ensures r.Keys == t.Keys + {a}
    ensures forall b :: b in t ==> r[b] == t[b]
    ensures a !in t ==> r[a] == map[]
  {
    if a in t then t else t[a := map[]]
  }

  function EnsureMailing(t: Table, a: string, n: string): (r: Table)
    requires a in t
    ensures r.Keys == t.Keys
    ensures forall b :: b in t && b != a ==> r[b] == t[b]
    ensures r[a].Keys == t[a].Keys + {n}
    ensures forall m :: m in t[a] ==> r[a][m] == t[a][m]
    ensures n !in t[a] ==> r[a][n] == []
  {
    if n in t[a] then t else t[a := t[a][n := []]]
  }

  function Push(t: Table, a: string, n: string, row: Row): Table
    requires a in t && n in t[a]
  {
    t[a := t[a][n := t[a][n] + [row]]]
  }

  /** Together the three statements are `Appended`. */
  lemma InsertOrCreate(prev: Table, apa: string, number: string, row: Row)
    ensures Push(EnsureMailing(EnsureApa(prev, apa), apa, number), apa, number, row) == Appended(prev, apa, number, row)
  {
    var t := Push(EnsureMailing(EnsureApa(prev, apa), apa, number), apa, number, row);
    var entry := if apa in prev then prev[apa] else map[];
    assert t[apa] == entry[number := Lookup(prev, apa, number) + [row]];
    assert t == prev[apa := t[apa]];
  }

  lemma ApplySnoc(t: Table, row: Row, done: seq<(string, string)>, apa: string, number: string)
    ensures Apply(t, row, done + [(apa, number)]) == Appended(Apply(t, row, done), apa, number, row)
  {
    assert (done + [(apa, number)])[..|done|] == done;
  }

  lemma TokenAssignmentsSnoc(token: string, apas: seq<string>, k: nat)
    requires PlainNames(apas) && k < |apas|
    ensures TokenAssignments(token, apas[..k + 1]) ==
      TokenAssignments(token, apas[..k])
        + (match MatchApa(apas[k], token) case Some(n) => [(apas[k], n)] case None => [])
  {
    assert apas[..k + 1][..k] == apas[..k];
  }

  lemma BuildLast(rows: seq<Row>, col: nat, apas: seq<string>)
    requires rows != [] && HasColumn(rows, col) && PlainNames(apas)
    ensures HasColumn(rows[..|rows| - 1], col) && col < |rows[|rows| - 1]|
    ensures Build(rows, col, apas) ==
      Apply(Build(rows[..|rows| - 1], col, apas), rows[|rows| - 1], Assignments(rows[|rows| - 1][col], apas))
  {
  }

  lemma BuildSnoc(rows: seq<Row>, i: nat, col: nat, apas: seq<string>)
    requires i < |rows| && HasColumn(rows[..i], col) && col < |rows[i]| && PlainNames(apas)
    ensures HasColumn(rows[..i + 1], col)
    ensures Build(rows[..i + 1], col, apas) == Apply(Build(rows[..i], col, apas), rows[i], Assignments(rows[i][col], apas))
  {
    var prefix := rows[..i + 1];
    assert prefix[..i] == rows[..i];
    assert prefix[i] == rows[i];
    assert HasColumn(prefix, col) by {
      forall j | 0 <= j < |prefix| ensures col < |prefix[j]| {
        if j < i {
          assert prefix[j] == rows[..i][j];
        }
      }
    }
    BuildLast(prefix, col, apas);
  }

  /** The innermost loop: `token` is tried against every known APA in turn,
      and each match appends `row` under its APA and captured number. */
  method AppendForToken(t0: Table, row: Row, token: string, apas: seq<string>) returns (t: Table)
    requires PlainNames(apas)
    ensures t == Apply(t0, row, TokenAssignments(token, apas))
  {
    t := t0;
    ghost var done: seq<(string, string)> := [];
    var k := 0;
    while k < |apas|
      invariant 0 <= k <= |apas|
      invariant done == TokenAssignments(token, apas[..k])
      invariant t == Apply(t0, row, done)
    {
      var apa := apas[k];
      TokenAssignmentsSnoc(token, apas, k);
      var m := MatchApa(apa, token);
      if m.Some? {
        ghost var prev := t;
        if apa !in t {
          t := t[apa := map[]];
        }
        assert t == EnsureApa(prev, apa);
        ghost var created := t;
        var number := m.value;
        if number !in t[apa] {
          t := t[apa := t[apa][number := []]];
        }
        assert t == EnsureMailing(created, apa, number);
        t := t[apa := t[apa][number := t[apa][number] + [row]]];
        InsertOrCreate(prev, apa, number, row);
        ApplySnoc(t0, row, done, apa, number);
        done := done + [(apa, number)];
      }
      k := k + 1;
    }
    assert apas[..|apas|] == apas;
  }

  /** The middle loop: every token of the row's cell, in order. */
  method AppendForTokens(t0: Table, row: Row, tokens: seq<string>, apas: seq<string>) returns (t: Table)
    requires PlainNames(apas)
    ensures t == Apply(t0, row, TokensAssignments(tokens, apas))
  {
    t := t0;
    var j := 0;
    while j < |tokens|
      invariant 0 <= j <= |tokens|
      invariant t == Apply(t0, row, TokensAssignments(tokens[..j], apas))
    {
      ghost var before := TokensAssignments(tokens[..j], apas);
      ghost var step := TokenAssignments(tokens[j], apas);
      t := AppendForToken(t, row, tokens[j], apas);
      TokensAssignmentsSnoc(tokens, j, apas);
      ApplyConcat(t0, row, before, step);
      j := j + 1;
    }
    assert tokens[..|tokens|] == tokens;
  }

  /** The grouping loop over the rows. It stops at the first row too short to
      have the mailings column, where Python raises IndexError. */
  method GroupRows(rows: seq<Row>, col: nat, apas: seq<string>) returns (res: Result<Table, nat>)
    requires PlainNames(apas)
    ensures res.Failure? <==> !HasColumn(rows, col)
    ensures res.Failure? ==> res.error < |rows| && |rows[res.error]| <= col && HasColumn(rows[..res.error], col)
    ensures res.Success? ==> NoEmptyEntries(res.value)
    ensures res.Success? ==> forall a :: a in res.value ==> a in apas
    ensures res.Success? ==> forall a, n :: Lookup(res.value, a, n) == Listed(rows, col, apas, a, n)
  {
    var t: Table := map[];
    var i := 0;
    while i < |rows|
      invariant 0 <= i <= |rows|
      invariant HasColumn(rows[..i], col)
      invariant t == Build(rows[..i], col, apas)
    {
      if |rows[i]| <= col {
        return Failure(i);
      }
      var row := rows[i];
      BuildSnoc(rows, i, col, apas);
      t := AppendForTokens(t, row, Tokens(row[col]), apas);
      i := i + 1;
    }
    assert rows[..|rows|] == rows;
    BuildSpec(rows, col, apas);
    return Success(t);
  }
}
