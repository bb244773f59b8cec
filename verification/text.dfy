/**
 The string operations the dashboard applies to its text columns, with
 Python's semantics: `str.split(sep)` and `sep.join(parts)`, deleting a
 character class with `str.replace(regex)`, leftmost search, and the
 character classes `\s` and `\d` used by the season pattern.
 */
module Text {
  import opened Wrappers
  import opened Seqs

  /** Leftmost position in [from, bound] where `p` holds. */
  function FirstPosition(p: nat -> bool, from: nat, bound: nat): (r: Option<nat>)
    ensures r.Some? ==> from <= r.value <= bound && p(r.value)
    ensures r.Some? ==> forall j :: from <= j < r.value ==> !p(j)
    ensures r.None? ==> forall j :: from <= j <= bound ==> !p(j)
    decreases bound - from
  {
    if from > bound then None
    else if p(from) then Some(from)
    else FirstPosition(p, from + 1, bound)
  }

  /** `sep` occurs in `s` starting at position `i`. */
  predicate OccursAt(s: string, sep: string, i: int) {
    0 <= i && i + |sep| <= |s| && s[i..i + |sep|] == sep
  }

  predicate Contains(s: string, sep: string) {
    exists i :: 0 <= i <= |s| && OccursAt(s, sep, i)
  }

  /** Leftmost occurrence of a nonempty `sep` in `s` (Python `str.find`). */
  function Find(s: string, sep: string): (r: Option<nat>)
    requires |sep| > 0
    ensures r.Some? ==> OccursAt(s, sep, r.value)
    ensures r.Some? ==> forall j :: 0 <= j < r.value ==> !OccursAt(s, sep, j)
    ensures r.None? <==> !Contains(s, sep)
  {
    var p: nat -> bool := (i: nat) => OccursAt(s, sep, i);
    var r := FirstPosition(p, 0, |s|);
    assert r.None? ==> forall j :: 0 <= j <= |s| ==> !OccursAt(s, sep, j) by {
      if r.None? {
        forall j: nat | j <= |s| ensures !OccursAt(s, sep, j) {
          assert !p(j);
        }
      }
    }
    assert r.Some? ==> forall j :: 0 <= j < r.value ==> !OccursAt(s, sep, j) by {
      if r.Some? {
        forall j: nat | j < r.value ensures !OccursAt(s, sep, j) {
          assert !p(j);
        }
      }
    }
    r
  }

  /** Python `sep.join(parts)`. */
  function Join(parts: seq<string>, sep: string): string
    decreases |parts|
  {
    if |parts| == 0 then ""
    else if |parts| == 1 then parts[0]
    else parts[0] + sep + Join(parts[1..], sep)
  }

  lemma OccursInPrefix(s: string, sep: string, n: nat, j: int)
    requires n <= |s| && OccursAt(s[..n], sep, j)
    ensures OccursAt(s, sep, j)
  {
    assert s[..n][j..j + |sep|] == s[j..j + |sep|];
  }

  /**
   Python `s.split(sep)` for a nonempty separator: cut at each leftmost
   occurrence. Gluing the pieces back with `sep` gives `s`, and no piece
   contains `sep`; there is always at least one piece.
   */
  function Split(s: string, sep: string): (r: seq<string>)
    requires |sep| > 0
    ensures |r| >= 1
    ensures forall i :: 0 <= i < |r| ==> !Contains(r[i], sep)
    ensures Join(r, sep) == s
    decreases |s|
  {
    match Find(s, sep)
    case None => [s]
    case Some(i) =>
      var head, tail := s[..i], s[i + |sep|..];
      assert !Contains(head, sep) by {
        forall j | OccursAt(head, sep, j) ensures false {
          OccursInPrefix(s, sep, i, j);
        }
      }
      var rest := Split(tail, sep);
      assert s == head + sep + tail;
      [head] + rest
  }

  /** `sep` overlaps no shifted copy of itself ("," and ", " are such separators). */
  predicate NoBorder(sep: string) {
    forall q :: 0 < q < |sep| ==> sep[..q] != sep[|sep| - q..]
  }

  /**
   When the first piece does not contain a border-free separator, the first
   occurrence of the separator in the joined text is the one right after it.
   */
  lemma FindAfterPiece(t: string, sep: string, x: string)
    requires |sep| > 0 && NoBorder(sep) && !Contains(t, sep)
    ensures Find(t + sep + x, sep) == Some(|t|)
  {
    var s := t + sep + x;
    assert s[|t|..|t| + |sep|] == sep;
    assert OccursAt(s, sep, |t|);
    forall j | 0 <= j < |t|
      ensures !OccursAt(s, sep, j)
    {
      if j + |sep| <= |t| {
        assert s[j..j + |sep|] == t[j..j + |sep|];
        assert !OccursAt(t, sep, j);
      } else {
        var q := j + |sep| - |t|;
        assert sep[..q] != sep[|sep| - q..];
      }
    }
  }

  /** Splitting joined pieces gives the pieces back, for a border-free separator. */
  lemma {:induction false} SplitJoin(parts: seq<string>, sep: string)
    requires |sep| > 0 && NoBorder(sep) && |parts| >= 1
    requires forall i :: 0 <= i < |parts| ==> !Contains(parts[i], sep)
    ensures Split(Join(parts, sep), sep) == parts
    decreases |parts|
  {
    if |parts| == 1 {
      assert Find(parts[0], sep).None?;
    } else {
      var rest := parts[1..];
      FindAfterPiece(parts[0], sep, Join(rest, sep));
      var s := Join(parts, sep);
      assert s[..|parts[0]|] == parts[0];
      assert s[|parts[0]| + |sep|..] == Join(rest, sep);
      SplitJoin(rest, sep);
      assert parts == [parts[0]] + rest;
    }
  }

  /** The separator of genre lists. */
  const ListSep := ", "

  lemma ListSepNoBorder()
    ensures NoBorder(ListSep)
  {
    assert ListSep[..1] == ",";
    assert ListSep[1..] == " ";
  }

  /** A one-character separator occurs exactly where its character does. */
  lemma ContainsChar(s: string, c: char)
    ensures Contains(s, [c]) <==> c in s
  {
    if c in s {
      var i :| 0 <= i < |s| && s[i] == c;
      assert OccursAt(s, [c], i);
    }
    if Contains(s, [c]) {
      var i :| 0 <= i <= |s| && OccursAt(s, [c], i);
      assert s[i..i + 1][0] == s[i];
    }
  }

  /** The text before the first `c`, or all of `s` if there is none (`s.split(c)[0]`). */
  function BeforeFirst(s: string, c: char): (r: string)
    ensures c !in r
    ensures |r| <= |s| && s[..|r|] == r
    ensures |r| < |s| ==> s[|r|] == c
  {
    var parts := Split(s, [c]);
    ContainsChar(parts[0], c);
    if |parts| == 1 then parts[0]
    else
      assert s == parts[0] + [c] + Join(parts[1..], [c]);
      parts[0]
  }

  predicate IsBracket(c: char) {
    c == '[' || c == ']'
  }

  predicate NotBracket(c: char) {
    !IsBracket(c)
  }

  /**
   `re.sub(r"[\[\]]", "", s)`: delete every `[` and `]`. What is left keeps
   the order and every copy of each other character.
   */
  function StripBrackets(s: string): (r: string)
    ensures forall i :: 0 <= i < |r| ==> !IsBracket(r[i])
    ensures forall c :: !IsBracket(c) ==> multiset(r)[c] == multiset(s)[c]
    ensures IsSubsequence(r, s)
  {
    var r := Filter(s, NotBracket);
    forall c | !IsBracket(c) ensures multiset(r)[c] == multiset(s)[c] {
      FilterCount(s, NotBracket, c);
    }
    r
  }

  /**
   Python's `\s` for `str` patterns: the characters for which `str.isspace()`
   holds.
   */
  predicate IsSpace(c: char) {
    var n := c as int;
    || 0x09 <= n <= 0x0D
    || 0x1C <= n <= 0x20
    || n == 0x85 || n == 0xA0 || n == 0x1680
    || 0x2000 <= n <= 0x200A
    || n == 0x2028 || n == 0x2029 || n == 0x202F || n == 0x205F || n == 0x3000
  }

  predicate IsDigit(c: char) {
    '0' <= c <= '9'
  }

  predicate AllDigits(s: string) {
    forall i :: 0 <= i < |s| ==> IsDigit(s[i])
  }

  /** Decimal value of a string of digits (leading zeros allowed). */
  function DigitsValue(s: string): nat
    requires AllDigits(s)
    decreases |s|
  {
    if |s| == 0 then 0
    else 10 * DigitsValue(s[..|s| - 1]) + (s[|s| - 1] as int - '0' as int)
  }

  function Pow10(n: nat): nat {
    if n == 0 then 1 else 10 * Pow10(n - 1)
  }

  /** `n` digits spell a number below `10^n`. */
  lemma {:induction false} DigitsValueBound(s: string)
    requires AllDigits(s)
    ensures DigitsValue(s) < Pow10(|s|)
    decreases |s|
  {
    if |s| > 0 {
      var init := s[..|s| - 1];
      assert AllDigits(init) by {
        assert forall i :: 0 <= i < |init| ==> init[i] == s[i];
      }
      DigitsValueBound(init);
    }
  }

  function DigitChar(d: nat): (c: char)
    requires d < 10
    ensures IsDigit(c)
  {
    ('0' as int + d) as char
  }

  /** Shortest decimal spelling of `n`. */
  function NatText(n: nat): (s: string)
    ensures |s| >= 1 && AllDigits(s)
    decreases n
  {
    if n < 10 then [DigitChar(n)] else NatText(n / 10) + [DigitChar(n % 10)]
  }

  lemma {:induction false} NatTextValue(n: nat)
    ensures DigitsValue(NatText(n)) == n
    decreases n
  {
    if n >= 10 {
      var s := NatText(n);
      assert s[..|s| - 1] == NatText(n / 10);
      NatTextValue(n / 10);
    }
  }
}
