/**
 * The per-APA mailing information read from `<apa>.csv`, whose rows are
 * APA name, mailing number, year, month, and more.
 */
module MailingInfo {
  import opened Wrappers
  import opened Columns

  /** One mailing's information; the editor is never filled in from the CSV. */
  datatype MailingDev = MailingDev(number: string, year: string, month: string, editor: string)

  /** Every row has the four columns the loop reads. */
  predicate Wide(rows: seq<Row>) {
    forall i :: 0 <= i < |rows| ==> |rows[i]| >= 4
  }

  /** `MailingDev(Number=md[1], Year=md[2], Month=md[3])`. */
  function Dev(md: Row): MailingDev
    requires |md| >= 4
  {
    MailingDev(md[1], md[2], md[3], "")
  }

  /** The last row whose mailing number is `k`, or -1 when there is none. */
  function LastIndex(rows: seq<Row>, k: string): (i: int)
    requires Wide(rows)
    ensures -1 <= i < |rows|
    ensures i >= 0 ==> rows[i][1] == k
    ensures forall j :: i < j < |rows| ==> rows[j][1] != k
    decreases |rows|
  {
    if rows == [] then -1
    else if rows[|rows| - 1][1] == k then |rows| - 1
    else LastIndex(rows[..|rows| - 1], k)
  }

  /** The mailing numbers that occur in the rows. */
  function Numbers(rows: seq<Row>): set<string>
    requires Wide(rows)
  {
    set i | 0 <= i < |rows| :: rows[i][1]
  }

  /** The table of one APA: for each mailing number, the information of the
      last row that carries it. */
  function InfoOf(rows: seq<Row>): map<string, MailingDev>
    requires Wide(rows)
  {
    map k | k in Numbers(rows) :: Dev(rows[LastIndex(rows, k)])
  }

  /** A mailing number has an entry exactly when some row carries it, and
      the entry is that of the last such row: its number is the key, year
      and month come from that row and the editor is empty. */
  lemma InfoOfEntry(rows: seq<Row>, k: string)
    requires Wide(rows)
    ensures k in InfoOf(rows) <==> exists i :: 0 <= i < |rows| && rows[i][1] == k
    ensures k in InfoOf(rows) ==>
      exists i :: LastFor(rows, i, k) && InfoOf(rows)[k] == MailingDev(k, rows[i][2], rows[i][3], "")
  {
    if k in InfoOf(rows) {
      var i := LastIndex(rows, k);
      assert LastFor(rows, i, k);
    }
  }

  /** Row `i` carries mailing number `k` and no later row does. */
  predicate LastFor(rows: seq<Row>, i: int, k: string)
    requires Wide(rows)
  {
    0 <= i < |rows| && rows[i][1] == k && forall j :: i < j < |rows| ==> rows[j][1] != k
  }

  /** One more row adds its mailing number to the numbers seen. */
  lemma NumbersSnoc(rows: seq<Row>, i: nat)
    requires i < |rows| && Wide(rows[..i + 1])
    ensures Wide(rows[..i])
    ensures Numbers(rows[..i + 1]) == Numbers(rows[..i]) + {rows[i][1]}
  {
    var pre, ext := rows[..i], rows[..i + 1];
    assert forall j :: 0 <= j < i ==> pre[j] == ext[j];
    forall k | k in Numbers(ext) ensures k in Numbers(pre) + {rows[i][1]} {
      var j :| 0 <= j < |ext| && ext[j][1] == k;
    }
    forall k | k in Numbers(pre) ensures k in Numbers(ext) {
      var j :| 0 <= j < |pre| && pre[j][1] == k;
    }
    assert ext[i] == rows[i];
  }

  /** Processing one more row overwrites the entry of its mailing number. */
  lemma InfoOfSnoc(rows: seq<Row>, i: nat)
    requires i < |rows| && Wide(rows[..i]) && |rows[i]| >= 4
    ensures Wide(rows[..i + 1])
    ensures InfoOf(rows[..i + 1]) == InfoOf(rows[..i])[rows[i][1] := Dev(rows[i])]
  {
    var pre, ext := rows[..i], rows[..i + 1];
    assert ext == pre + [rows[i]];
    assert ext[..i] == pre;
    NumbersSnoc(rows, i);
    var m1, m2 := InfoOf(ext), InfoOf(pre)[rows[i][1] := Dev(rows[i])];
    assert m1.Keys == m2.Keys;
    forall k | k in m1 ensures m1[k] == m2[k] {
      if k == rows[i][1] {
        assert LastIndex(ext, k) == i;
      } else {
        var j := LastIndex(pre, k);
        assert LastIndex(ext, k) == j;
        assert ext[j] == pre[j];
      }
    }
  }

  /** The loop over one APA's rows. It stops at the first row with fewer than
      four columns, where Python raises IndexError. */
  method BuildApaInfo(rows: seq<Row>) returns (res: Result<map<string, MailingDev>, nat>)
    ensures res.Failure? <==> !Wide(rows)
    ensures res.Failure? ==> res.error < |rows| && |rows[res.error]| < 4 && Wide(rows[..res.error])
    ensures res.Success? ==> res.value == InfoOf(rows)
  {
    var info: map<string, MailingDev> := map[];
    var i := 0;
    while i < |rows|
      invariant 0 <= i <= |rows|
      invariant Wide(rows[..i])
      invariant info == InfoOf(rows[..i])
    {
      var md := rows[i];
      if |md| < 4 {
        return Failure(i);
      }
      InfoOfSnoc(rows, i);
      info := info[md[1] := MailingDev(md[1], md[2], md[3], "")];
      i := i + 1;
    }
    assert rows[..|rows|] == rows;
    return Success(info);
  }

  /** Every APA up to position `j` of the list whose CSV is present has rows
      wide enough. */
  predicate WideUpTo(apas: seq<string>, csvs: map<string, seq<Row>>, j: int) {
    forall j' :: 0 <= j' < j && j' < |apas| && apas[j'] in csvs ==> Wide(csvs[apas[j']])
  }

  /** The loop over the known APAs: `csvs` holds the rows of each `<apa>.csv`
      that exists; an APA without one is skipped. */
  method BuildInfoTable(apas: seq<string>, csvs: map<string, seq<Row>>)
    returns (res: Result<map<string, map<string, MailingDev>>, (string, nat)>)
    ensures res.Success? <==> WideUpTo(apas, csvs, |apas|)
    ensures res.Success? ==> res.value.Keys == set a | a in apas && a in csvs
    ensures res.Success? ==> forall a :: a in res.value ==> Wide(csvs[a]) && res.value[a] == InfoOf(csvs[a])
    ensures res.Failure? ==> exists j :: 0 <= j < |apas| && apas[j] == res.error.0 && WideUpTo(apas, csvs, j)
    ensures res.Failure? ==> var (a, i) := res.error;
      a in csvs && i < |csvs[a]| && |csvs[a][i]| < 4 && Wide(csvs[a][..i])
  {
    var table: map<string, map<string, MailingDev>> := map[];
    var j := 0;
    while j < |apas|
      invariant 0 <= j <= |apas|
      invariant WideUpTo(apas, csvs, j)
      invariant table.Keys == set a | a in apas[..j] && a in csvs
      invariant forall a :: a in table ==> Wide(csvs[a]) && table[a] == InfoOf(csvs[a])
    {
      var apa := apas[j];
      assert apas[..j + 1] == apas[..j] + [apa];
      if apa in csvs {
        var r := BuildApaInfo(csvs[apa]);
        if r.Failure? {
          return Failure((apa, r.error));
        }
        table := table[apa := r.value];
      }
      j := j + 1;
    }
    assert apas[..|apas|] == apas;
    return Success(table);
  }
}
