/**
 * The handful of Python `str` operations the mailing pages are built from:
 * `isspace`, `strip`, `removeprefix`, `removesuffix`, `split`, `"".join`
 * and single-character `replace`.
 */
module Text {

  /** Python's `str.isspace()` for one character (`Py_UNICODE_ISSPACE`);
      the regular-expression class `\s` on a `str` pattern is the same set. */
  predicate IsSpace(c: char) {
    var n := c as int;
    (0x09 <= n <= 0x0D) || (0x1C <= n <= 0x20) || n == 0x85 || n == 0xA0
    || n == 0x1680 || (0x2000 <= n <= 0x200A) || n == 0x2028 || n == 0x2029
    || n == 0x202F || n == 0x205F || n == 0x3000
  }

  /** Neither end of `s` is white space: what `strip()` leaves. */
  predicate Stripped(s: string) {
    s == [] || (!IsSpace(s[0]) && !IsSpace(s[|s| - 1]))
  }

  function TrimStart(s: string): (r: string)
    ensures |r| <= |s| && r == s[|s| - |r|..]
    ensures forall k :: 0 <= k < |s| - |r| ==> IsSpace(s[k])
    ensures r != [] ==> !IsSpace(r[0])
  {
    if s != [] && IsSpace(s[0]) then TrimStart(s[1..]) else s
  }

  function TrimEnd(s: string): (r: string)
    ensures |r| <= |s| && r == s[..|r|]
    ensures forall k :: |r| <= k < |s| ==> IsSpace(s[k])
    ensures r != [] ==> !IsSpace(r[|r| - 1])
  {
    if s != [] && IsSpace(s[|s| - 1]) then TrimEnd(s[..|s| - 1]) else s
  }

  /** `r` stands in `s` at offset `i`, with only white space before and after it. */
  predicate SpaceFramed(s: string, i: int, r: string) {
    && 0 <= i <= |s| - |r|
    && r == s[i..i + |r|]
    && (forall k :: 0 <= k < i ==> IsSpace(s[k]))
    && (forall k :: i + |r| <= k < |s| ==> IsSpace(s[k]))
  }

  /** A prefix `r` of a suffix `t` of `s`, with only white space cut off on
      either side, stands in `s` framed by white space. */
  lemma Framed(s: string, t: string, r: string)
    requires |t| <= |s| && t == s[|s| - |t|..]
    requires forall k :: 0 <= k < |s| - |t| ==> IsSpace(s[k])
    requires |r| <= |t| && r == t[..|r|]
    requires forall k :: |r| <= k < |t| ==> IsSpace(t[k])
    ensures SpaceFramed(s, |s| - |t|, r)
  {
    var i := |s| - |t|;
    forall k | i + |r| <= k < |s| ensures IsSpace(s[k]) {
      assert s[k] == t[k - i];
    }
    assert r == s[i..i + |r|];
  }

  /** What the two trims leave of `s` stands in `s` framed by white space. */
  lemma TrimsFramed(s: string)
    ensures SpaceFramed(s, |s| - |TrimStart(s)|, TrimEnd(TrimStart(s)))
  {
    Framed(s, TrimStart(s), TrimEnd(TrimStart(s)));
  }

  /** `s.strip()`: the longest middle part of `s` whose ends are not white
      space, everything cut off on either side being white space. */
  function Strip(s: string): (r: string)
    ensures Stripped(r)
    ensures exists i :: SpaceFramed(s, i, r)
    ensures forall c :: c in r ==> c in s
  {
    var t := TrimStart(s);
    var r := TrimEnd(t);
    TrimsFramed(s);
    assert r != [] ==> r[0] == t[0];
    r
  }

  /** `strip()` leaves text that is already stripped as it is, so applying
      it twice is the same as applying it once. */
  lemma StripStripped(s: string)
    ensures Stripped(s) ==> Strip(s) == s
    ensures Strip(Strip(s)) == Strip(s)
  {
    forall t | Stripped(t) ensures Strip(t) == t {
      var r := Strip(t);
      var i :| SpaceFramed(t, i, r);
    }
  }

  /** `s.removeprefix(p)`. */
  function RemovePrefix(s: string, p: string): (r: string)
    ensures p <= s ==> p + r == s
    ensures !(p <= s) ==> r == s
  {
    if p <= s then s[|p|..] else s
  }

  /** `s.removesuffix(p)` for a non-empty `p`. */
  function RemoveSuffix(s: string, p: string): (r: string)
    requires p != []
    ensures |p| <= |s| && s[|s| - |p|..] == p ==> r + p == s
    ensures !(|p| <= |s| && s[|s| - |p|..] == p) ==> r == s
  {
    if |p| <= |s| && s[|s| - |p|..] == p then s[..|s| - |p|] else s
  }

  /** `s.split(sep)` for a non-empty separator: the pieces between the
      occurrences of `sep` found scanning left to right, never overlapping. */
  function Split(s: string, sep: string): (r: seq<string>)
    requires sep != []
    ensures |r| >= 1
    decreases |s|
  {
    if |s| < |sep| then [s]
    else if s[..|sep|] == sep then [""] + Split(s[|sep|..], sep)
    else
      var rest := Split(s[1..], sep);
      [[s[0]] + rest[0]] + rest[1..]
  }

  /** `sep.join(parts)`. */
  function Join(parts: seq<string>, sep: string): string
    requires |parts| >= 1
  {
    if |parts| == 1 then parts[0] else parts[0] + sep + Join(parts[1..], sep)
  }

  /** Joining after an empty first piece starts with the separator. */
  lemma JoinEmptyHead(rest: seq<string>, sep: string)
    requires |rest| >= 1
    ensures Join([""] + rest, sep) == sep + Join(rest, sep)
  {
    var q := [""] + rest;
    assert q[0] == "" && q[1..] == rest;
  }

  /** Joining after a character is put in front of the first piece puts it
      in front of the joined text. */
  lemma JoinPrepend(x: char, parts: seq<string>, sep: string)
    requires |parts| >= 1
    ensures Join([[x] + parts[0]] + parts[1..], sep) == [x] + Join(parts, sep)
  {
    var q := [[x] + parts[0]] + parts[1..];
    assert q[0] == [x] + parts[0] && q[1..] == parts[1..];
    if |parts| > 1 {
      assert ([x] + parts[0]) + sep + Join(parts[1..], sep) == [x] + (parts[0] + sep + Join(parts[1..], sep));
    }
  }

  /** Splitting and joining again with the same separator gives back the text. */
  lemma {:induction false} JoinSplit(s: string, sep: string)
    requires sep != []
    ensures Join(Split(s, sep), sep) == s
    decreases |s|
  {
    if |s| < |sep| {
    } else if s[..|sep|] == sep {
      var tail := s[|sep|..];
      JoinSplit(tail, sep);
      JoinEmptyHead(Split(tail, sep), sep);
      assert s == sep + tail;
    } else {
      var rest := Split(s[1..], sep);
      JoinSplit(s[1..], sep);
      JoinPrepend(s[0], rest, sep);
      assert s == [s[0]] + s[1..];
    }
  }

  function CountChar(s: string, c: char): nat {
    if s == [] then 0 else (if s[0] == c then 1 else 0) + CountChar(s[1..], c)
  }

  /** Splitting on one character gives one piece more than the text has
      separators, and no piece holds the separator. */
  lemma {:induction false} SplitOnChar(s: string, c: char)
    ensures |Split(s, [c])| == CountChar(s, c) + 1
    ensures forall i :: 0 <= i < |Split(s, [c])| ==> c !in Split(s, [c])[i]
    decreases |s|
  {
    if s != [] {
      SplitOnChar(s[1..], c);
      assert s[..1] == [s[0]];
      if s[0] != c {
        var rest := Split(s[1..], [c]);
        var parts := Split(s, [c]);
        assert parts[0] == [s[0]] + rest[0];
        assert forall i :: 1 <= i < |parts| ==> parts[i] == rest[i];
      }
    }
  }

  /** Deleting every occurrence of `sep`, scanning left to right: an occurrence
      is removed as a whole and the scan resumes after it. */
  function RemoveEvery(s: string, sep: string): string
    requires sep != []
    decreases |s|
  {
    if |s| < |sep| then s
    else if s[..|sep|] == sep then RemoveEvery(s[|sep|..], sep)
    else [s[0]] + RemoveEvery(s[1..], sep)
  }

  /** Writing the pieces of `s.split(sep)` one after the other, with nothing
      between them, deletes every occurrence of `sep`. */
  lemma {:induction false} ConcatSplit(s: string, sep: string)
    requires sep != []
    ensures Join(Split(s, sep), "") == RemoveEvery(s, sep)
    decreases |s|
  {
    if |s| < |sep| {
    } else if s[..|sep|] == sep {
      var tail := s[|sep|..];
      ConcatSplit(tail, sep);
      JoinEmptyHead(Split(tail, sep), "");
      assert "" + Join(Split(tail, sep), "") == Join(Split(tail, sep), "");
    } else {
      var rest := Split(s[1..], sep);
      ConcatSplit(s[1..], sep);
      JoinPrepend(s[0], rest, "");
    }
  }

  /** `s.replace(old, new)` for single characters. */
  function ReplaceChar(s: string, from: char, to: char): (r: string)
    ensures |r| == |s|
    ensures forall i :: 0 <= i < |s| ==> r[i] == if s[i] == from then to else s[i]
  {
    seq(|s|, i requires 0 <= i < |s| => if s[i] == from then to else s[i])
  }

  /** Replacing is done character by character, so it distributes over
      concatenation. */
  lemma ReplaceCharConcat(a: string, b: string, from: char, to: char)
    ensures ReplaceChar(a + b, from, to) == ReplaceChar(a, from, to) + ReplaceChar(b, from, to)
  {
  }

  /** `s.replace(c, "")`: `s` with every `c` deleted, the rest in order. */
  function DeleteChar(s: string, c: char): (r: string)
    ensures c !in r
    ensures |r| == |s| - CountChar(s, c)
    ensures forall x :: x != c ==> multiset(r)[x] == multiset(s)[x]
    ensures forall x :: x in r ==> x in s
  {
    if s == [] then []
    else
      assert s == [s[0]] + s[1..];
      if s[0] == c then DeleteChar(s[1..], c) else [s[0]] + DeleteChar(s[1..], c)
  }

  /** `replace(c, '')` keeps the other characters in their order: deleting
      from a concatenation deletes from each part, and a single character
      is dropped exactly when it is `c`. */
  lemma {:induction false} DeleteCharConcat(a: string, b: string, c: char)
    ensures DeleteChar(a + b, c) == DeleteChar(a, c) + DeleteChar(b, c)
    ensures forall x :: DeleteChar([x], c) == if x == c then [] else [x]
    decreases |a|
  {
    if a == [] {
      assert a + b == b;
    } else {
      assert (a + b)[1..] == a[1..] + b;
      assert (a + b)[0] == a[0];
      DeleteCharConcat(a[1..], b, c);
    }
  }
}
