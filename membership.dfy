/**
 * The "Mailings" cell of a contribution row, `['FAPA 20 & VAPA 23']`, and
 * the (APA, mailing number) assignments it yields for a list of known APAs.
 */
module Membership {
  import opened Wrappers
  import opened Text

  /** The characters Python's `re` gives a special meaning outside a class. */
  const RegexMetaChars: string := ".^$*+?{}[]\\|()"

  /** An APA name that reads as itself when interpolated, unescaped, into a
      regular expression. */
  predicate PlainName(apa: string) {
    forall i :: 0 <= i < |apa| ==> apa[i] !in RegexMetaChars
  }

  predicate PlainNames(apas: seq<string>) {
    forall i :: 0 <= i < |apas| ==> PlainName(apas[i])
  }

  predicate Distinct(apas: seq<string>) {
    forall i, j :: 0 <= i < j < |apas| ==> apas[i] != apas[j]
  }

  /** The `['` and `']` decoration is dropped, each only where it is present:
      the opening one as a prefix of the cell, the closing one as a suffix of
      what is left. */
  function Undecorate(cell: string): (r: string)
    ensures var open := if "['" <= cell then "['" else "";
            var close := if EndsWith(cell[|open|..], "']") then "']" else "";
            cell == open + r + close
  {
    RemoveSuffix(RemovePrefix(cell, "['"), "']")
  }

  predicate EndsWith(s: string, p: string) {
    |p| <= |s| && s[|s| - |p|..] == p
  }

  /** `[x.strip() for x in cell.split("&")]` after undecorating: one token
      more than there are `&`, each free of `&` and of white space at its
      ends. */
  function Tokens(cell: string): (r: seq<string>)
    ensures |r| == CountChar(Undecorate(cell), '&') + 1
    ensures forall i :: 0 <= i < |r| ==> Stripped(r[i]) && '&' !in r[i]
  {
    var parts := Split(Undecorate(cell), "&");
    SplitOnChar(Undecorate(cell), '&');
    seq(|parts|, i requires 0 <= i < |parts| => Strip(parts[i]))
  }

  /** The tokens are the trimmed pieces between the `&` of the undecorated
      cell, and those pieces join back into it. */
  lemma TokensArePieces(cell: string)
    ensures var parts := Split(Undecorate(cell), "&");
            && Join(parts, "&") == Undecorate(cell)
            && |Tokens(cell)| == |parts|
            && forall i :: 0 <= i < |parts| ==> Tokens(cell)[i] == Strip(parts[i])
  {
    JoinSplit(Undecorate(cell), "&");
  }

  /** What `(.*)$` does with the text after the APA name and its white-space
      character: `.` stops at a newline and `$` holds at the end of the text
      or just before a newline that ends it. */
  function ToLineEnd(rest: string): (r: Option<string>)
    ensures '\n' !in rest ==> r == Some(rest)
    ensures r.Some? ==> '\n' !in r.value && (rest == r.value || rest == r.value + "\n")
    ensures r.None? <==> exists k :: 0 <= k < |rest| - 1 && rest[k] == '\n'
  {
    if '\n' !in rest then Some(rest)
    else if rest[|rest| - 1] == '\n' && '\n' !in rest[..|rest| - 1] then
      assert rest == rest[..|rest| - 1] + "\n";
      Some(rest[..|rest| - 1])
    else
      assert exists k :: 0 <= k < |rest| - 1 && rest[k] == '\n' by {
        var k :| 0 <= k < |rest| && rest[k] == '\n';
        if rest[|rest| - 1] == '\n' {
          var k' :| 0 <= k' < |rest| - 1 && rest[..|rest| - 1][k'] == '\n';
        }
      }
      None
  }

  /** `re.match(f"{apa}\s(.*)$", token)`, reduced to the captured group:
      the token starts with the APA name itself followed by one white-space
      character, and the group is the rest of that line. */
  function MatchApa(apa: string, token: string): (r: Option<string>)
    requires PlainName(apa)
    ensures r.Some? ==> |apa| < |token| && apa <= token && IsSpace(token[|apa|])
    ensures r.Some? ==> '\n' !in r.value
    ensures r.Some? ==> token[|apa| + 1..] == r.value || token[|apa| + 1..] == r.value + "\n"
  {
    if |apa| < |token| && apa <= token && IsSpace(token[|apa|]) then ToLineEnd(token[|apa| + 1..])
    else None
  }

  /** A token made of the APA name, one white-space character and a text
      without newline matches, capturing that text unchanged. */
  lemma MatchCapturesVerbatim(apa: string, c: char, number: string)
    requires PlainName(apa) && IsSpace(c) && '\n' !in number
    ensures MatchApa(apa, apa + [c] + number) == Some(number)
  {
    var token := apa + [c] + number;
    assert token[..|apa|] == apa;
    assert token[|apa| + 1..] == number;
  }

  /** On a stripped token, as the tokens of a cell are, a match is exactly
      "APA name, one white-space character, then no newline", and the
      mailing number is all the rest of the token. */
  lemma MatchStrippedToken(apa: string, token: string)
    requires PlainName(apa) && Stripped(token)
    ensures MatchApa(apa, token).Some? <==>
      |apa| < |token| && apa <= token && IsSpace(token[|apa|]) && '\n' !in token[|apa| + 1..]
    ensures MatchApa(apa, token).Some? ==> MatchApa(apa, token).value == token[|apa| + 1..]
  {
    if |apa| < |token| && apa <= token && IsSpace(token[|apa|]) {
      var rest := token[|apa| + 1..];
      if rest != [] {
        assert rest[|rest| - 1] == token[|token| - 1];
      }
    }
  }

  /** The assignments one token yields: one per known APA it matches, in the
      order of the known APAs (the inner loop). */
  function TokenAssignments(token: string, apas: seq<string>): seq<(string, string)>
    requires PlainNames(apas)
    decreases |apas|
  {
    if apas == [] then []
    else
      var apa := apas[|apas| - 1];
      TokenAssignments(token, apas[..|apas| - 1])
        + (match MatchApa(apa, token) case Some(n) => [(apa, n)] case None => [])
  }

  /** The assignments a list of tokens yields, token by token (the outer loop). */
  function TokensAssignments(tokens: seq<string>, apas: seq<string>): seq<(string, string)>
    requires PlainNames(apas)
    decreases |tokens|
  {
    if tokens == [] then []
    else TokensAssignments(tokens[..|tokens| - 1], apas) + TokenAssignments(tokens[|tokens| - 1], apas)
  }

  lemma TokensAssignmentsSnoc(tokens: seq<string>, j: nat, apas: seq<string>)
    requires j < |tokens| && PlainNames(apas)
    ensures TokensAssignments(tokens[..j + 1], apas)
      == TokensAssignments(tokens[..j], apas) + TokenAssignments(tokens[j], apas)
  {
    var prefix := tokens[..j + 1];
    assert prefix[..j] == tokens[..j];
    assert prefix[j] == tokens[j];
  }

  /** Every (APA, mailing number) a "Mailings" cell assigns its row to, in
      the order the grouping loop appends the row. */
  function Assignments(cell: string, apas: seq<string>): seq<(string, string)>
    requires PlainNames(apas)
  {
    TokensAssignments(Tokens(cell), apas)
  }

  lemma {:induction false} TokenAssignmentsMember(token: string, apas: seq<string>, a: string, n: string)
    requires PlainNames(apas)
    ensures (a, n) in TokenAssignments(token, apas) <==> a in apas && MatchApa(a, token) == Some(n)
    decreases |apas|
  {
    if apas != [] {
      var init, last := apas[..|apas| - 1], apas[|apas| - 1];
      var found := match MatchApa(last, token) case Some(m) => [(last, m)] case None => [];
      assert TokenAssignments(token, apas) == TokenAssignments(token, init) + found;
      TokenAssignmentsMember(token, init, a, n);
      assert apas == init + [last];
    }
  }

  lemma {:induction false} TokensAssignmentsMember(tokens: seq<string>, apas: seq<string>, a: string, n: string)
    requires PlainNames(apas)
    ensures (a, n) in TokensAssignments(tokens, apas) <==>
      a in apas && exists t :: t in tokens && MatchApa(a, t) == Some(n)
    decreases |tokens|
  {
    if tokens != [] {
      var m := |tokens| - 1;
      var init, last := tokens[..m], tokens[m];
      assert TokensAssignments(tokens, apas) == TokensAssignments(init, apas) + TokenAssignments(last, apas);
      TokensAssignmentsMember(init, apas, a, n);
      TokenAssignmentsMember(last, apas, a, n);
      assert tokens == init + [last];
    }
  }

  /** A cell assigns its row to APA `a` with mailing number `n` exactly when
      `a` is a known APA and one of the cell's tokens matches `a` capturing
      `n`. */
  lemma AssignmentsMember(cell: string, apas: seq<string>, a: string, n: string)
    requires PlainNames(apas)
    ensures (a, n) in Assignments(cell, apas) <==>
      a in apas && exists t :: t in Tokens(cell) && MatchApa(a, t) == Some(n)
  {
    TokensAssignmentsMember(Tokens(cell), apas, a, n);
  }

  /** How many of the tokens match `a` capturing `n`. */
  function CountMatches(tokens: seq<string>, a: string, n: string): nat
    requires PlainName(a)
    decreases |tokens|
  {
    if tokens == [] then 0
    else CountMatches(tokens[..|tokens| - 1], a, n) + (if MatchApa(a, tokens[|tokens| - 1]) == Some(n) then 1 else 0)
  }

  /** A single token is counted once when it matches and not otherwise. */
  lemma CountMatchesOne(token: string, a: string, n: string)
    requires PlainName(a)
    ensures CountMatches([token], a, n) == if MatchApa(a, token) == Some(n) then 1 else 0
  {
    assert [token][..0] == [];
  }

  lemma {:induction false} TokenAssignmentsCount(token: string, apas: seq<string>, a: string, n: string)
    requires PlainNames(apas) && Distinct(apas)
    ensures multiset(TokenAssignments(token, apas))[(a, n)] ==
      if a in apas && MatchApa(a, token) == Some(n) then 1 else 0
    decreases |apas|
  {
    if apas != [] {
      var init := apas[..|apas| - 1];
      TokenAssignmentsCount(token, init, a, n);
      assert apas == init + [apas[|apas| - 1]];
      if apas[|apas| - 1] == a {
        assert a !in init;
      }
    }
  }

  lemma {:induction false} TokensAssignmentsCount(tokens: seq<string>, apas: seq<string>, a: string, n: string)
    requires PlainNames(apas) && Distinct(apas) && a in apas
    ensures multiset(TokensAssignments(tokens, apas))[(a, n)] == CountMatches(tokens, a, n)
    decreases |tokens|
  {
    if tokens != [] {
      TokensAssignmentsCount(tokens[..|tokens| - 1], apas, a, n);
      TokenAssignmentsCount(tokens[|tokens| - 1], apas, a, n);
    }
  }

  /** With no APA listed twice, a cell assigns its row to (`a`, `n`) once for
      every token that matches `a` capturing `n`, and never for an APA that is
      not known. */
  lemma AssignmentsCount(cell: string, apas: seq<string>, a: string, n: string)
    requires PlainNames(apas) && Distinct(apas)
    ensures a !in apas ==> multiset(Assignments(cell, apas))[(a, n)] == 0
    ensures a in apas ==> multiset(Assignments(cell, apas))[(a, n)] == CountMatches(Tokens(cell), a, n)
  {
    AssignmentsMember(cell, apas, a, n);
    if a in apas {
      TokensAssignmentsCount(Tokens(cell), apas, a, n);
    }
  }

  /** `[x.replace('"', '').strip() for x in setting.split(",")]`: the list of
      known APA names read from the settings. */
  function KnownApas(setting: string): (r: seq<string>)
    ensures |r| == CountChar(setting, ',') + 1
    ensures forall i :: 0 <= i < |r| ==> Stripped(r[i]) && '"' !in r[i] && ',' !in r[i]
  {
    var parts := Split(setting, ",");
    SplitOnChar(setting, ',');
    seq(|parts|, i requires 0 <= i < |parts| => Strip(DeleteChar(parts[i], '"')))
  }

  /** Each known APA name is its comma-separated piece of the setting with
      the quotes deleted and then stripped, and the pieces join back into
      the setting. */
  lemma KnownApasArePieces(setting: string)
    ensures var parts := Split(setting, ",");
            && Join(parts, ",") == setting
            && |KnownApas(setting)| == |parts|
            && forall i :: 0 <= i < |parts| ==> KnownApas(setting)[i] == Strip(DeleteChar(parts[i], '"'))
  {
    JoinSplit(setting, ",");
  }
}
