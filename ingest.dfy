/**
 * The steps of `main()` that turn the contribution CSV, the "Known APAs"
 * setting and the per-APA CSVs into the mailing-info table and the grouped
 * table of rows per APA and mailing number.
 */
module Ingest {
  import opened Wrappers
  import opened Text
  import opened Columns
  import opened Membership
  import opened MailingInfo
  import opened Grouping

  datatype IngestError =
    | BadHeader(header: HeaderError)            // no header row, or no "Mailings" column
    | ShortInfoRow(apa: string, infoRow: nat)   // a row of `<apa>.csv` with fewer than four cells
    | ShortRow(row: nat)                        // a contribution row without a mailings cell

  /** The position of the APA whose `.csv` is read last: the last known APA
      that has one, or -1 when none has. */
  function LastCsvIndex(apas: seq<string>, csvs: map<string, seq<Row>>): (j: int)
    ensures -1 <= j < |apas|
    ensures j >= 0 ==> apas[j] in csvs
    ensures forall j' :: j < j' < |apas| ==> apas[j'] !in csvs
    decreases |apas|
  {
    if apas == [] then -1
    else if apas[|apas| - 1] in csvs then |apas| - 1
    else LastCsvIndex(apas[..|apas| - 1], csvs)
  }

  /** The rows the grouping loop iterates as the source is written: the
      per-APA loop reuses the name `mailingsdata`, so after it the name holds
      the rows of the last `<apa>.csv` read, if any was read. */
  function RowsIteratedAsWritten(data: seq<Row>, apas: seq<string>, csvs: map<string, seq<Row>>): (r: seq<Row>)
    ensures (forall a :: a in apas ==> a !in csvs) ==> r == data
    ensures (exists a :: a in apas && a in csvs) ==>
      exists j :: 0 <= j < |apas| && apas[j] in csvs && r == csvs[apas[j]]
        && forall j' :: j < j' < |apas| ==> apas[j'] !in csvs
  {
    var j := LastCsvIndex(apas, csvs);
    if j >= 0 then csvs[apas[j]] else data
  }

  /** A decorated cell holding one stripped assignment is that one token. */
  lemma DecoratedTokens(x: string)
    requires '&' !in x && Stripped(x)
    ensures Tokens("['" + x + "']") == [x]
  {
    var cell := "['" + x + "']";
    assert "['" <= cell;
    assert cell[2..] == x + "']";
    assert EndsWith(cell[2..], "']");
    assert Undecorate(cell) == x by {
      var r := Undecorate(cell);
      assert cell == "['" + r + "']";
      assert r == cell[2..|cell| - 2] == x;
    }
    SingleToken(cell, x);
    StripStripped(x);
  }

  /** A cell holding only an APA name is that one token. */
  lemma BareNameTokens(apa: string)
    requires PlainName(apa) && Stripped(apa) && '&' !in apa
    ensures Tokens(apa) == [apa]
  {
    assert '[' in RegexMetaChars && ']' in RegexMetaChars;
    assert Undecorate(apa) == apa by {
      if apa != [] {
        assert apa[0] != '[';
        assert apa[|apa| - 1] != ']';
      }
      assert !("['" <= apa);
      assert !EndsWith(apa, "']");
    }
    SingleToken(apa, apa);
    StripStripped(apa);
  }

  /** The cell `['<apa> <number>']` has one token, which matches the APA
      capturing the number. */
  lemma DecoratedMatch(apa: string, number: string)
    requires PlainName(apa) && Stripped(apa) && apa != [] && '&' !in apa
    requires number != [] && Stripped(number) && '&' !in number && '\n' !in number
    ensures CountMatches(Tokens("['" + apa + " " + number + "']"), apa, number) == 1
  {
    var x := apa + " " + number;
    assert "['" + apa + " " + number + "']" == "['" + x + "']";
    assert x[0] == apa[0] && x[|x| - 1] == number[|number| - 1];
    DecoratedTokens(x);
    assert apa + [' '] + number == x;
    MatchCapturesVerbatim(apa, ' ', number);
    CountMatchesOne(x, apa, number);
  }

  /** The row `['<apa> <number>']` alone is listed once under that APA and
      mailing number. */
  lemma DecoratedRowListed(apa: string, number: string)
    requires PlainName(apa) && Stripped(apa) && apa != [] && '&' !in apa
    requires number != [] && Stripped(number) && '&' !in number && '\n' !in number
    ensures HasColumn([["['" + apa + " " + number + "']"]], 0)
    ensures Listed([["['" + apa + " " + number + "']"]], 0, [apa], apa, number) == [["['" + apa + " " + number + "']"]]
  {
    var row := ["['" + apa + " " + number + "']"];
    DecoratedMatch(apa, number);
    assert PlainNames([apa]) && Distinct([apa]);
    ListedOneRow(row, 0, [apa], apa, number);
    assert Repeat(row, 1) == [row];
  }

  /** Rows listed from a later run of rows stay listed when rows come before. */
  lemma ListedAfter(first: seq<Row>, second: seq<Row>, col: nat, apas: seq<string>, a: string, n: string)
    requires HasColumn(first, col) && HasColumn(second, col) && PlainNames(apas)
    requires Listed(second, col, apas, a, n) != []
    ensures HasColumn(first + second, col) && Listed(first + second, col, apas, a, n) != []
  {
    ListedConcat(first, second, col, apas, a, n);
  }

  /** Below a header row, the contribution row `['<apa> <number>']` is
      listed under that APA and mailing number. */
  lemma ContributionListed(header: Row, apa: string, number: string)
    requires |header| > 0
    requires PlainName(apa) && Stripped(apa) && apa != [] && '&' !in apa
    requires number != [] && Stripped(number) && '&' !in number && '\n' !in number
    ensures HasColumn([header, ["['" + apa + " " + number + "']"]], 0)
    ensures Listed([header, ["['" + apa + " " + number + "']"]], 0, [apa], apa, number) != []
  {
    var row := ["['" + apa + " " + number + "']"];
    DecoratedRowListed(apa, number);
    assert PlainNames([apa]) && HasColumn([header], 0);
    ListedAfter([header], [row], 0, [apa], apa, number);
    assert [header] + [row] == [header, row];
  }

  /** A cell holding only the APA name does not match it. */
  lemma BareNameNoMatch(apa: string, number: string)
    requires PlainName(apa) && Stripped(apa) && '&' !in apa
    ensures CountMatches(Tokens(apa), apa, number) == 0
  {
    BareNameTokens(apa);
    assert MatchApa(apa, apa).None?;
    CountMatchesOne(apa, apa, number);
  }

  /** The row `[<apa>, <number>, <year>, <month>]` of `<apa>.csv` is listed
      nowhere, since its first cell is only the APA name. */
  lemma InfoRowListsNothing(apa: string, number: string, year: string, month: string)
    requires PlainName(apa) && Stripped(apa) && '&' !in apa
    ensures Listed([[apa, number, year, month]], 0, [apa], apa, number) == []
  {
    var row := [apa, number, year, month];
    assert row[0] == apa;
    BareNameNoMatch(apa, number);
    assert PlainNames([apa]) && Distinct([apa]);
    ListedOneRow(row, 0, [apa], apa, number);
  }

  /** A contribution CSV with one row `['<apa> <number>']` and an `<apa>.csv`
      describing that mailing: the rows the source groups are those of
      `<apa>.csv`, so the contribution listed under that APA and mailing in
      the contribution CSV is missing from the grouped table. */
  lemma AsWrittenLosesContributions(apa: string, number: string, year: string, month: string)
    requires PlainName(apa) && Stripped(apa) && apa != [] && '&' !in apa
    requires number != [] && Stripped(number) && '&' !in number && '\n' !in number
    ensures var data := [[MailingsHeader], ["['" + apa + " " + number + "']"]];
            var csvs := map[apa := [[apa, number, year, month]]];
            && MailingsColumn(data) == Success(0)
            && RowsIteratedAsWritten(data, [apa], csvs) == csvs[apa]
            && Listed(data, 0, [apa], apa, number) != []
            && Listed(csvs[apa], 0, [apa], apa, number) == []
  {
    var data := [[MailingsHeader], ["['" + apa + " " + number + "']"]];
    assert data[0][0] == MailingsHeader;
    var csvs := map[apa := [[apa, number, year, month]]];
    assert LastCsvIndex([apa], csvs) == 0;
    ContributionListed([MailingsHeader], apa, number);
    InfoRowListsNothing(apa, number, year, month);
  }

  /** A cell whose undecorated text has no `&` is one token, its text
      stripped. */
  lemma SingleToken(cell: string, text: string)
    requires Undecorate(cell) == text && '&' !in text
    ensures Tokens(cell) == [Strip(text)]
  {
    assert CountChar(text, '&') == 0 by {
      CountCharAbsent(text, '&');
    }
    TokensArePieces(cell);
    var parts := Split(text, "&");
    assert |parts| == 1;
    assert Join(parts, "&") == parts[0];
  }

  lemma {:induction false} CountCharAbsent(s: string, c: char)
    requires c !in s
    ensures CountChar(s, c) == 0
    decreases |s|
  {
    if s != [] {
      assert s[1..][..] == s[1..];
      CountCharAbsent(s[1..], c);
    }
  }

  /** The ingest steps of `main()` in order, grouping the rows of the
      contribution CSV: the header row gives the mailings column, every known
      APA with a `.csv` gets its mailing-info table, then every contribution
      row (the header row included) is grouped by its mailings cell. Each
      step stops at the first row it cannot index. */
  method Ingest(data: seq<Row>, knownSetting: string, csvs: map<string, seq<Row>>)
    returns (res: Result<(map<string, map<string, MailingDev>>, Table), IngestError>)
    requires PlainNames(KnownApas(knownSetting))
    ensures MailingsColumn(data).Failure? ==> res == Failure(BadHeader(MailingsColumn(data).error))
    ensures res.Failure? ==> (res.error.BadHeader? <==> MailingsColumn(data).Failure?)
    ensures res.Failure? && res.error.ShortInfoRow? ==>
      && MailingsColumn(data).Success?
      && var (a, i) := (res.error.apa, res.error.infoRow);
         && a in csvs && i < |csvs[a]| && |csvs[a][i]| < 4 && Wide(csvs[a][..i])
         && var apas := KnownApas(knownSetting);
            exists j :: 0 <= j < |apas| && apas[j] == a && WideUpTo(apas, csvs, j)
    ensures res.Failure? && res.error.ShortRow? ==>
      && MailingsColumn(data).Success?
      && WideUpTo(KnownApas(knownSetting), csvs, |KnownApas(knownSetting)|)
      && var col := MailingsColumn(data).value;
         res.error.row < |data| && |data[res.error.row]| <= col && HasColumn(data[..res.error.row], col)
    ensures res.Success? <==>
      && MailingsColumn(data).Success?
      && WideUpTo(KnownApas(knownSetting), csvs, |KnownApas(knownSetting)|)
      && HasColumn(data, MailingsColumn(data).value)
    ensures res.Success? ==> var (info, table) := res.value; var apas := KnownApas(knownSetting);
      && info.Keys == (set a | a in apas && a in csvs)
      && (forall a :: a in info ==> Wide(csvs[a]) && info[a] == InfoOf(csvs[a]))
      && NoEmptyEntries(table)
      && (forall a :: a in table ==> a in apas)
      && (forall a, n :: Lookup(table, a, n) == Listed(data, MailingsColumn(data).value, apas, a, n))
  {
    var header := MailingsColumn(data);
    if header.Failure? {
      return Failure(BadHeader(header.error));
    }
    var col := header.value;
    var apas := KnownApas(knownSetting);
    var info := BuildInfoTable(apas, csvs);
    if info.Failure? {
      return Failure(ShortInfoRow(info.error.0, info.error.1));
    }
    var grouped := GroupRows(data, col, apas);
    if grouped.Failure? {
      return Failure(ShortRow(grouped.error));
    }
    return Success((info.value, grouped.value));
  }
}
