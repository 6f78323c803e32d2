/**
 * The table of rows placed in each mailing page: one `<tr>` for the header
 * row and one per listed row, every cell inside `<th>`, followed by the
 * replacement of every backslash by a slash; and the page text as it is
 * written, with every `/n` removed.
 */
module HtmlTable {
  import opened Wrappers
  import opened Text

  const TrOpen := "<tr>\n"
  const TrClose := "</tr>\n"
  const ThOpen := "<th>"
  const ThClose := "</th>\n"

  function Cell(c: string): string {
    ThOpen + c + ThClose
  }

  /** The cells of one row, one after the other. */
  function Cells(cs: seq<string>): string
    decreases |cs|
  {
    if cs == [] then "" else Cell(cs[0]) + Cells(cs[1..])
  }

  function RowHtml(cs: seq<string>): string {
    TrOpen + Cells(cs) + TrClose
  }

  function RowsHtml(rows: seq<seq<string>>): string
    decreases |rows|
  {
    if rows == [] then "" else RowHtml(rows[0]) + RowsHtml(rows[1..])
  }

  /** The header row followed by one row per listed row, before normalisation. */
  function TableHtml(headers: seq<string>, rows: seq<seq<string>>): string {
    RowHtml(headers) + RowsHtml(rows)
  }

  /** `s.replace("\\", "/")`. */
  function Slashed(s: string): string {
    ReplaceChar(s, '\\', '/')
  }

  function SlashedCells(cs: seq<string>): (r: seq<string>)
    ensures |r| == |cs| && forall i :: 0 <= i < |cs| ==> r[i] == Slashed(cs[i])
  {
    seq(|cs|, i requires 0 <= i < |cs| => Slashed(cs[i]))
  }

  function SlashedRows(rows: seq<seq<string>>): (r: seq<seq<string>>)
    ensures |r| == |rows| && forall i :: 0 <= i < |rows| ==> r[i] == SlashedCells(rows[i])
  {
    seq(|rows|, i requires 0 <= i < |rows| => SlashedCells(rows[i]))
  }

  lemma {:induction false} CellsSnoc(cs: seq<string>, c: string)
    ensures Cells(cs + [c]) == Cells(cs) + Cell(c)
    decreases |cs|
  {
    if cs != [] {
      assert (cs + [c])[1..] == cs[1..] + [c];
      CellsSnoc(cs[1..], c);
    }
  }

  lemma {:induction false} RowsSnoc(rows: seq<seq<string>>, row: seq<string>)
    ensures RowsHtml(rows + [row]) == RowsHtml(rows) + RowHtml(row)
    decreases |rows|
  {
    if rows != [] {
      assert (rows + [row])[1..] == rows[1..] + [row];
      RowsSnoc(rows[1..], row);
    }
  }

  /** `for c in cs: newtable += f"<th>{c}</th>\n"`. */
  method AppendCells(s0: string, cs: seq<string>) returns (s: string)
    ensures s == s0 + Cells(cs)
  {
    s := s0;
    for i := 0 to |cs|
      invariant s == s0 + Cells(cs[..i])
    {
      assert cs[..i + 1] == cs[..i] + [cs[i]];
      CellsSnoc(cs[..i], cs[i]);
      s := s + Cell(cs[i]);
    }
    assert cs[..|cs|] == cs;
  }

  /** `newtable += "<tr>\n"`, the cells, then `newtable += "</tr>\n"`. */
  method AppendRow(s0: string, cs: seq<string>) returns (s: string)
    ensures s == s0 + RowHtml(cs)
  {
    s := AppendCells(s0 + TrOpen, cs);
    s := s + TrClose;
  }

  /** The nested loops of the source: the header row, then one row per listed
      row, then every backslash replaced by a slash. */
  method BuildTable(headers: seq<string>, rows: seq<seq<string>>) returns (s: string)
    ensures s == Slashed(TableHtml(headers, rows))
    ensures '\\' !in s
  {
    s := AppendRow("", headers);
    assert s == RowHtml(headers) + RowsHtml(rows[..0]);
    for j := 0 to |rows|
      invariant s == RowHtml(headers) + RowsHtml(rows[..j])
    {
      s := AppendRow(s, rows[j]);
      RowsSnoc(rows[..j], rows[j]);
      assert rows[..j + 1] == rows[..j] + [rows[j]];
    }
    assert rows[..|rows|] == rows;
    ghost var table := s;
    assert table == TableHtml(headers, rows);
    s := Slashed(s);
    SlashedClean(table);
  }

  /** No backslash is left after the replacement. */
  lemma SlashedClean(s: string)
    ensures '\\' !in Slashed(s)
  {
    var r := Slashed(s);
    assert forall i :: 0 <= i < |r| ==> r[i] != '\\';
  }

  /** Text without a backslash is left as it is. */
  lemma SlashedFixed(s: string)
    requires '\\' !in s
    ensures Slashed(s) == s
  {
  }

  lemma SlashedCell(c: string)
    ensures Slashed(Cell(c)) == Cell(Slashed(c))
  {
    ReplaceCharConcat(ThOpen + c, ThClose, '\\', '/');
    ReplaceCharConcat(ThOpen, c, '\\', '/');
    SlashedFixed(ThOpen);
    SlashedFixed(ThClose);
  }

  lemma {:induction false} SlashedCellsHtml(cs: seq<string>)
    ensures Slashed(Cells(cs)) == Cells(SlashedCells(cs))
    decreases |cs|
  {
    if cs != [] {
      ReplaceCharConcat(Cell(cs[0]), Cells(cs[1..]), '\\', '/');
      SlashedCell(cs[0]);
      SlashedCellsHtml(cs[1..]);
      assert SlashedCells(cs)[1..] == SlashedCells(cs[1..]);
    }
  }

  lemma SlashedRow(cs: seq<string>)
    ensures Slashed(RowHtml(cs)) == RowHtml(SlashedCells(cs))
  {
    ReplaceCharConcat(TrOpen + Cells(cs), TrClose, '\\', '/');
    ReplaceCharConcat(TrOpen, Cells(cs), '\\', '/');
    SlashedFixed(TrOpen);
    SlashedFixed(TrClose);
    SlashedCellsHtml(cs);
  }

  lemma {:induction false} SlashedRowsHtml(rows: seq<seq<string>>)
    ensures Slashed(RowsHtml(rows)) == RowsHtml(SlashedRows(rows))
    decreases |rows|
  {
    if rows != [] {
      ReplaceCharConcat(RowHtml(rows[0]), RowsHtml(rows[1..]), '\\', '/');
      SlashedRow(rows[0]);
      SlashedRowsHtml(rows[1..]);
      assert SlashedRows(rows)[1..] == SlashedRows(rows[1..]);
    }
  }

  /** The markup has no backslash, so the replacement only changes the text
      of the cells. */
  lemma SlashedTable(headers: seq<string>, rows: seq<seq<string>>)
    ensures Slashed(TableHtml(headers, rows)) == TableHtml(SlashedCells(headers), SlashedRows(rows))
  {
    ReplaceCharConcat(RowHtml(headers), RowsHtml(rows), '\\', '/');
    SlashedRow(headers);
    SlashedRowsHtml(rows);
  }

  // Reading the table back.  The cells are not escaped, so this succeeds
  // only for cells without '<'.

  predicate PlainCells(cs: seq<string>) {
    forall i :: 0 <= i < |cs| ==> '<' !in cs[i]
  }

  predicate PlainRows(rows: seq<seq<string>>) {
    forall i :: 0 <= i < |rows| ==> PlainCells(rows[i])
  }

  /** The longest prefix without '<', and what follows it. */
  function TakeText(s: string): (r: (string, string))
    ensures r.0 + r.1 == s
    ensures '<' !in r.0
    ensures r.1 == [] || r.1[0] == '<'
    decreases |s|
  {
    if s == [] || s[0] == '<' then ([], s)
    else
      var (t, rest) := TakeText(s[1..]);
      ([s[0]] + t, rest)
  }

  lemma {:induction false} TakeTextOf(c: string, rest: string)
    requires '<' !in c
    requires rest != [] && rest[0] == '<'
    ensures TakeText(c + rest) == (c, rest)
    decreases |c|
  {
    if c == [] {
      assert c + rest == rest;
    } else {
      assert (c + rest)[0] == c[0] != '<';
      assert (c + rest)[1..] == c[1..] + rest;
      TakeTextOf(c[1..], rest);
      assert [c[0]] + c[1..] == c;
    }
  }

  /** The cells of a row up to its `</tr>\n`, and the text after that. */
  function ParseCells(s: string): (r: Option<(seq<string>, string)>)
    ensures r.Some? ==> |r.value.1| < |s|
    decreases |s|
  {
    if TrClose <= s then Some(([], s[|TrClose|..]))
    else if ThOpen <= s then
      var (c, rest) := TakeText(s[|ThOpen|..]);
      if ThClose <= rest then
        match ParseCells(rest[|ThClose|..])
        case Some((cs, after)) => Some(([c] + cs, after))
        case None => None
      else None
    else None
  }

  function ParseRow(s: string): (r: Option<(seq<string>, string)>)
    ensures r.Some? ==> |r.value.1| < |s|
  {
    if TrOpen <= s then ParseCells(s[|TrOpen|..]) else None
  }

  function ParseRows(s: string): Option<seq<seq<string>>>
    decreases |s|
  {
    if s == [] then Some([])
    else match ParseRow(s)
      case None => None
      case Some((cs, rest)) =>
        match ParseRows(rest)
        case None => None
        case Some(rs) => Some([cs] + rs)
  }

  /** The header cells and the rows of a table. */
  function ParseTable(s: string): Option<(seq<string>, seq<seq<string>>)> {
    match ParseRow(s)
    case None => None
    case Some((headers, rest)) =>
      match ParseRows(rest)
      case None => None
      case Some(rows) => Some((headers, rows))
  }

  /** One cell without '<' is read, then the rest of the row. */
  lemma ParseCellsStep(c: string, tail: string)
    requires '<' !in c
    ensures ParseCells(ThOpen + (c + (ThClose + tail))) ==
      match ParseCells(tail)
      case Some((cs, after)) => Some(([c] + cs, after))
      case None => None
  {
    var s := ThOpen + (c + (ThClose + tail));
    assert s[1] == 't';
    assert !(TrClose <= s);
    assert s[|ThOpen|..] == c + (ThClose + tail);
    TakeTextOf(c, ThClose + tail);
    assert (ThClose + tail)[|ThClose|..] == tail;
  }

  lemma CellThen(c: string, rest: string)
    ensures Cell(c) + rest == ThOpen + (c + (ThClose + rest))
  {
  }

  lemma {:induction false} ParseCellsOf(cs: seq<string>, after: string)
    requires PlainCells(cs)
    ensures ParseCells(Cells(cs) + (TrClose + after)) == Some((cs, after))
    decreases |cs|
  {
    if cs == [] {
      assert Cells(cs) + (TrClose + after) == TrClose + after;
    } else {
      var c := cs[0];
      var tail := Cells(cs[1..]) + (TrClose + after);
      assert Cells(cs) + (TrClose + after) == Cell(c) + tail;
      CellThen(c, tail);
      assert '<' !in c;
      ParseCellsStep(c, tail);
      ParseCellsOf(cs[1..], after);
      assert [c] + cs[1..] == cs;
    }
  }

  lemma ParseRowOf(cs: seq<string>, after: string)
    requires PlainCells(cs)
    ensures ParseRow(RowHtml(cs) + after) == Some((cs, after))
  {
    var s := RowHtml(cs) + after;
    assert s == TrOpen + (Cells(cs) + (TrClose + after));
    assert s[|TrOpen|..] == Cells(cs) + (TrClose + after);
    ParseCellsOf(cs, after);
  }

  lemma {:induction false} ParseRowsOf(rows: seq<seq<string>>)
    requires PlainRows(rows)
    ensures ParseRows(RowsHtml(rows)) == Some(rows)
    decreases |rows|
  {
    if rows != [] {
      var s := RowsHtml(rows);
      assert |s| > 0 by {
        assert |RowHtml(rows[0])| >= |TrOpen|;
      }
      ParseRowOf(rows[0], RowsHtml(rows[1..]));
      ParseRowsOf(rows[1..]);
      assert [rows[0]] + rows[1..] == rows;
    }
  }

  /** Nothing is lost in the serialisation of cells without '<'. */
  lemma TableRoundTrip(headers: seq<string>, rows: seq<seq<string>>)
    requires PlainCells(headers) && PlainRows(rows)
    ensures ParseTable(TableHtml(headers, rows)) == Some((headers, rows))
  {
    ParseRowOf(headers, RowsHtml(rows));
    ParseRowsOf(rows);
  }

  /** The text built for a mailing page reads back as its header cells and
      rows, each with every backslash turned into a slash. */
  lemma BuiltTableReadsBack(headers: seq<string>, rows: seq<seq<string>>)
    requires PlainCells(headers) && PlainRows(rows)
    ensures ParseTable(Slashed(TableHtml(headers, rows))) == Some((SlashedCells(headers), SlashedRows(rows)))
  {
    SlashedTable(headers, rows);
    assert PlainCells(SlashedCells(headers));
    assert PlainRows(SlashedRows(rows));
    TableRoundTrip(SlashedCells(headers), SlashedRows(rows));
  }

  // Writing the page.

  const Marker := "/n"

  /** `issueindex.split("/n")` written with `writelines`, which adds nothing
      between the pieces. `filled` is the text and success flag returned by
      the template substitution; nothing is written when it failed. */
  function WrittenPage(filled: (string, bool)): (r: Option<string>)
    ensures r.Some? <==> filled.1
    ensures r.Some? ==> r.value == RemoveEvery(filled.0, Marker)
  {
    if filled.1 then
      ConcatSplit(filled.0, Marker);
      Some(Join(Split(filled.0, Marker), ""))
    else None
  }

  /** Removal only deletes whole markers: the page is never longer than the
      text and differs from it in length by an even number of characters. */
  lemma {:induction false} RemoveMarkerLength(s: string)
    ensures |RemoveEvery(s, Marker)| <= |s|
    ensures (|s| - |RemoveEvery(s, Marker)|) % 2 == 0
    decreases |s|
  {
    if |s| < 2 {
    } else if s[..2] == Marker {
      RemoveMarkerLength(s[2..]);
    } else {
      RemoveMarkerLength(s[1..]);
    }
  }

  /** `sep` occurs in `s` at position `i`. */
  predicate OccursAt(s: string, sep: string, i: nat) {
    i + |sep| <= |s| && s[i..i + |sep|] == sep
  }

  /** Text without the marker is written unchanged. */
  lemma {:induction false} RemoveEveryAbsent(s: string, sep: string)
    requires sep != []
    requires forall i: nat :: !OccursAt(s, sep, i)
    ensures RemoveEvery(s, sep) == s
    decreases |s|
  {
    if |s| >= |sep| {
      assert !OccursAt(s, sep, 0);
      forall i: nat ensures !OccursAt(s[1..], sep, i) {
        assert !OccursAt(s, sep, i + 1);
        if i + |sep| <= |s[1..]| {
          assert s[1..][i..i + |sep|] == s[i + 1..i + 1 + |sep|];
        }
      }
      RemoveEveryAbsent(s[1..], sep);
      assert s == [s[0]] + s[1..];
    }
  }

  /** A single pass can leave a marker behind: `//nn` is written as `/n`. */
  lemma MarkerCanRemain()
    ensures RemoveEvery("//nn", Marker) == Marker
  {
    assert ("//nn")[..2][1] != Marker[1];
    assert ("//nn")[1..] == "/nn";
    assert ("/nn")[..2] == Marker;
    assert ("/nn")[2..] == "n";
  }

  /** Removing the marker works part by part, as long as no marker
      straddles the boundary between the two parts. */
  lemma {:induction false} RemoveMarkerConcat(a: string, b: string)
    requires !(a != [] && b != [] && a[|a| - 1] == Marker[0] && b[0] == Marker[1])
    ensures RemoveEvery(a + b, Marker) == RemoveEvery(a, Marker) + RemoveEvery(b, Marker)
    decreases |a|
  {
    if a == [] {
      assert a + b == b;
    } else if |a| == 1 {
      if b != [] {
        assert (a + b)[..2] != Marker;
        assert (a + b)[1..] == b;
      }
    } else if a[..2] == Marker {
      assert (a + b)[..2] == Marker;
      assert (a + b)[2..] == a[2..] + b;
      RemoveMarkerConcat(a[2..], b);
    } else {
      assert (a + b)[..2] == a[..2];
      assert (a + b)[1..] == a[1..] + b;
      assert (a + b)[0] == a[0];
      RemoveMarkerConcat(a[1..], b);
    }
  }

  /** A cell holding a backslash followed by `n` loses both characters,
      wherever it sits in the page: the backslash has become a slash and the
      pair is then removed, while the text around the cell is written as
      it would be without it. */
  lemma BackslashNDropped(pre: string, post: string)
    ensures WrittenPage((pre + Slashed(Cell("a\\nb")) + post, true))
      == Some(RemoveEvery(pre, Marker) + Cell("ab") + RemoveEvery(post, Marker))
  {
    var cell := Cell("a\\nb");
    assert cell[0] == '<' && cell[|cell| - 1] == '\n';
    SlashedCellRemoved();
    RemoveAround(pre, Slashed(cell), post);
  }

  /** A piece that neither starts with the marker's second character nor
      ends with its first one is written independently of its neighbours. */
  lemma RemoveAround(pre: string, c: string, post: string)
    requires c != [] && c[0] != Marker[1] && c[|c| - 1] != Marker[0]
    ensures RemoveEvery(pre + c + post, Marker)
      == RemoveEvery(pre, Marker) + RemoveEvery(c, Marker) + RemoveEvery(post, Marker)
  {
    assert (c + post)[0] == c[0];
    RemoveMarkerConcat(c, post);
    assert pre + c + post == pre + (c + post);
    RemoveMarkerConcat(pre, c + post);
  }

  lemma SlashedCellRemoved()
    ensures RemoveEvery(Slashed(Cell("a\\nb")), Marker) == Cell("ab")
  {
    ReplaceCharConcat(ThOpen + "a\\nb", ThClose, '\\', '/');
    ReplaceCharConcat(ThOpen, "a\\nb", '\\', '/');
    assert Slashed(ThOpen) == ThOpen;
    assert Slashed(ThClose) == ThClose;
    assert Slashed("a\\nb") == "a/nb";
    RemoveMarkerConcat(ThOpen + "a/nb", ThClose);
    RemoveMarkerConcat(ThOpen, "a/nb");
    MarkerFreeTags();
    assert RemoveEvery("a/nb", Marker) == "ab" by {
      assert ("a/nb")[1..] == "/nb";
      assert ("/nb")[2..] == "b";
    }
  }

  /** Text without a slash holds no marker and is written unchanged. */
  lemma {:induction false} NoSlashUnchanged(s: string)
    requires Marker[0] !in s
    ensures RemoveEvery(s, Marker) == s
    decreases |s|
  {
    if |s| >= 2 {
      assert s[..2] != Marker by { assert s[0] != Marker[0]; }
      NoSlashUnchanged(s[1..]);
      assert s == [s[0]] + s[1..];
    }
  }

  lemma MarkerFreeTags()
    ensures RemoveEvery(ThOpen, Marker) == ThOpen
    ensures RemoveEvery(ThClose, Marker) == ThClose
  {
    NoSlashUnchanged(ThOpen);
    var tail := "th>\n";
    NoSlashUnchanged(tail);
    var slashTail := "/" + tail;
    assert slashTail[..2] != Marker by { assert slashTail[1] == 't'; }
    assert slashTail[1..] == tail;
    assert RemoveEvery(slashTail, Marker) == slashTail;
    assert ThClose == "<" + slashTail;
    assert ThClose[..2] != Marker;
    assert ThClose[1..] == slashTail;
  }
}
