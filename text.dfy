/**
 * The JavaScript string built-ins the engine relies on: `indexOf` used as a
 * containment test, `toLowerCase`, `trim`, `split(' ')`, and `toString` on
 * integers.
 */
module Text {
  import opened Base

  type String = seq<char>

  predicate IsPrefix(p: String, s: String)
  {
    |p| <= |s| && s[..|p|] == p
  }

  /** `hay.indexOf(needle) !== -1`. */
  predicate Contains(hay: String, needle: String)
    decreases |hay|
  {
    IsPrefix(needle, hay) || (|hay| > 0 && Contains(hay[1..], needle))
  }

  /** `needle` occurs in `hay` starting at position `i`. */
  predicate OccursAt(hay: String, needle: String, i: int)
  {
    0 <= i && i + |needle| <= |hay| && hay[i..i + |needle|] == needle
  }

  /** The containment test agrees with "some window of `hay` equals `needle`". */
  lemma {:induction false} ContainsIffOccurs(hay: String, needle: String)
    ensures Contains(hay, needle) <==> exists i :: OccursAt(hay, needle, i)
    decreases |hay|
  {
    if Contains(hay, needle) {
      if IsPrefix(needle, hay) {
        assert OccursAt(hay, needle, 0);
      } else {
        ContainsIffOccurs(hay[1..], needle);
        var i :| OccursAt(hay[1..], needle, i);
        assert hay[1..][i..i + |needle|] == hay[i + 1..i + 1 + |needle|];
        assert OccursAt(hay, needle, i + 1);
      }
    }
    if exists i :: OccursAt(hay, needle, i) {
      var i :| OccursAt(hay, needle, i);
      if i == 0 {
        assert IsPrefix(needle, hay);
      } else {
        assert hay[1..][i - 1..i - 1 + |needle|] == hay[i..i + |needle|];
        assert OccursAt(hay[1..], needle, i - 1);
        ContainsIffOccurs(hay[1..], needle);
      }
    }
  }

  lemma {:induction false} ContainsSelf(s: String)
    ensures Contains(s, s)
  {
    assert IsPrefix(s, s);
  }

  lemma ContainsEmpty(s: String)
    ensures Contains(s, [])
  {
    assert IsPrefix([], s);
  }

  /** `toLowerCase` on one character, for the Basic Latin and Latin-1 letters. */
  function LowerChar(c: char): (r: char)
    ensures 'A' <= c <= 'Z' ==> r as int == c as int + 32
    ensures !('A' <= r <= 'Z')
  {
    if 'A' <= c <= 'Z' || ('\U{00C0}' <= c <= '\U{00DE}' && c != '\U{00D7}') then
      (c as int + 32) as char
    else
      c
  }

  /** `s.toLowerCase()` (case mapping restricted to LowerChar). */
  function Lower(s: String): (r: String)
    ensures |r| == |s|
    ensures forall i :: 0 <= i < |s| ==> r[i] == LowerChar(s[i])
  {
    seq(|s|, i requires 0 <= i < |s| => LowerChar(s[i]))
  }

  /** Lower-casing twice changes nothing more. */
  lemma LowerIdempotent(s: String)
    ensures Lower(Lower(s)) == Lower(s)
  {
  }

  /** The white space and line terminators that `String.prototype.trim` removes. */
  predicate IsSpace(c: char)
  {
    || c == ' ' || c == '\t' || c == '\n' || c == '\r'
    || c == '\U{000B}' || c == '\U{000C}' || c == '\U{00A0}' || c == '\U{1680}'
    || ('\U{2000}' <= c <= '\U{200A}')
    || c == '\U{2028}' || c == '\U{2029}' || c == '\U{202F}' || c == '\U{205F}'
    || c == '\U{3000}' || c == '\U{FEFF}'
  }

  function LeadingSpaces(s: String): (n: nat)
    ensures n <= |s|
    ensures forall k :: 0 <= k < n ==> IsSpace(s[k])
    ensures n < |s| ==> !IsSpace(s[n])
    decreases |s|
  {
    if |s| > 0 && IsSpace(s[0]) then 1 + LeadingSpaces(s[1..]) else 0
  }

  function TrailingSpaces(s: String): (n: nat)
    ensures n <= |s|
    ensures forall k :: |s| - n <= k < |s| ==> IsSpace(s[k])
    ensures n < |s| ==> !IsSpace(s[|s| - n - 1])
    decreases |s|
  {
    if |s| > 0 && IsSpace(s[|s| - 1]) then 1 + TrailingSpaces(s[..|s| - 1]) else 0
  }

  /** `s.trim()`: the longest slice of `s` that neither starts nor ends with white space. */
  function Trim(s: String): (r: String)
    ensures |r| > 0 ==> !IsSpace(r[0]) && !IsSpace(r[|r| - 1])
    ensures exists a, b ::
      && 0 <= a <= b <= |s| && r == s[a..b]
      && (forall k :: 0 <= k < a ==> IsSpace(s[k]))
      && (forall k :: b <= k < |s| ==> IsSpace(s[k]))
  {
    var a := LeadingSpaces(s);
    var b := |s| - TrailingSpaces(s);
    TrimEnds(s, a, b);
    if a < b then
      assert s[a..b][0] == s[a] && s[a..b][b - a - 1] == s[b - 1];
      s[a..b]
    else
      assert s[|s|..|s|] == [];
      []
  }

  /**
   * The cut points of Trim meet only on a string of white space alone; short
   * of that, they sit on characters that are not white space.
   */
  lemma TrimEnds(s: String, a: nat, b: nat)
    requires a <= |s| && (a < |s| ==> !IsSpace(s[a]))
    requires b <= |s| && (forall k :: b <= k < |s| ==> IsSpace(s[k])) && (0 < b ==> !IsSpace(s[b - 1]))
    ensures a < b <==> a < |s|
  {
    if a < |s| {
      SpaceBefore(s, a, b);
    }
  }

  /** A character that is not white space ends the trailing white space after it. */
  lemma SpaceBefore(s: String, a: nat, b: nat)
    requires a < |s| && !IsSpace(s[a])
    requires forall k :: b <= k < |s| ==> IsSpace(s[k])
    ensures a < b
  {
  }

  /** `s.split(sep)` for a one-character separator: never empty, pieces free of `sep`. */
  function Split(s: String, sep: char): (r: seq<String>)
    ensures |r| >= 1
    ensures forall i :: 0 <= i < |r| ==> sep !in r[i]
    decreases |s|
  {
    if s == [] then [[]]
    else
      var rest := Split(s[1..], sep);
      if s[0] == sep then [[]] + rest else [[s[0]] + rest[0]] + rest[1..]
  }

  /** `parts.join(sep)`. */
  function Join(parts: seq<String>, sep: char): String
    requires |parts| >= 1
    decreases |parts|
  {
    if |parts| == 1 then parts[0] else parts[0] + [sep] + Join(parts[1..], sep)
  }

  /** Joining the pieces of a split gives back the original string. */
  lemma {:induction false} JoinSplit(s: String, sep: char)
    ensures Join(Split(s, sep), sep) == s
    decreases |s|
  {
    if s != [] {
      var rest := Split(s[1..], sep);
      JoinSplit(s[1..], sep);
      if s[0] == sep {
        assert ([[]] + rest)[1..] == rest;
      } else {
        var r := [[s[0]] + rest[0]] + rest[1..];
        if |rest| == 1 {
          assert Join(r, sep) == [s[0]] + rest[0];
        } else {
          assert r[1..] == rest[1..];
          assert Join(rest, sep) == rest[0] + [sep] + Join(rest[1..], sep);
        }
        assert s == [s[0]] + s[1..];
      }
    }
  }

  lemma {:induction false} SplitNoSep(p: String, sep: char)
    requires sep !in p
    ensures Split(p, sep) == [p]
    decreases |p|
  {
    if p != [] {
      SplitNoSep(p[1..], sep);
      assert p == [p[0]] + p[1..];
    }
  }

  lemma {:induction false} SplitAtSep(p: String, sep: char, t: String)
    requires sep !in p
    ensures Split(p + [sep] + t, sep) == [p] + Split(t, sep)
    decreases |p|
  {
    var s := p + [sep] + t;
    if p == [] {
      assert s[1..] == t;
    } else {
      assert s[1..] == p[1..] + [sep] + t;
      SplitAtSep(p[1..], sep, t);
      assert p == [p[0]] + p[1..];
    }
  }

  /** Splitting a join of separator-free pieces gives back the pieces. */
  lemma {:induction false} SplitJoin(parts: seq<String>, sep: char)
    requires |parts| >= 1
    requires forall i :: 0 <= i < |parts| ==> sep !in parts[i]
    ensures Split(Join(parts, sep), sep) == parts
    decreases |parts|
  {
    if |parts| == 1 {
      SplitNoSep(parts[0], sep);
    } else {
      SplitJoin(parts[1..], sep);
      SplitAtSep(parts[0], sep, Join(parts[1..], sep));
      assert parts == [parts[0]] + parts[1..];
    }
  }

  function DigitChar(d: nat): (c: char)
    requires d < 10
  {
    ('0' as int + d) as char
  }

  predicate IsDigit(c: char)
  {
    '0' <= c <= '9'
  }

  /** The decimal numeral of `n`, as `Number.prototype.toString` writes integers below 10^21. */
  function NatToString(n: nat): (r: String)
    ensures |r| >= 1
    ensures forall i :: 0 <= i < |r| ==> IsDigit(r[i])
    decreases n
  {
    if n < 10 then [DigitChar(n)] else NatToString(n / 10) + [DigitChar(n % 10)]
  }

  /** `year.toString()` for integers of magnitude below 10^21. */
  function IntToString(n: int): (r: String)
    ensures |r| >= 1
    ensures r[0] == '-' <==> n < 0
    ensures forall i :: (if n < 0 then 1 else 0) <= i < |r| ==> IsDigit(r[i])
  {
    if n < 0 then ['-'] + NatToString(-n) else NatToString(n)
  }

  /** Reads back a decimal numeral: the reference against which NatToString is checked. */
  function ParseNat(s: String): int
    requires forall i :: 0 <= i < |s| ==> IsDigit(s[i])
    decreases |s|
  {
    if s == [] then 0 else ParseNat(s[..|s| - 1]) * 10 + (s[|s| - 1] as int - '0' as int)
  }

  lemma {:induction false} ParseNatToString(n: nat)
    ensures ParseNat(NatToString(n)) == n
    decreases n
  {
    if n >= 10 {
      ParseNatToString(n / 10);
      var s := NatToString(n);
      assert s[..|s| - 1] == NatToString(n / 10);
    }
  }

  /** Reads back an optionally signed decimal numeral. */
  function ParseInt(s: String): int
    requires s != [] && s[0] == '-' ==> forall i :: 1 <= i < |s| ==> IsDigit(s[i])
    requires s == [] || s[0] != '-' ==> forall i :: 0 <= i < |s| ==> IsDigit(s[i])
  {
    if s != [] && s[0] == '-' then -ParseNat(s[1..]) else ParseNat(s)
  }

  lemma ParseIntToString(n: int)
    ensures ParseInt(IntToString(n)) == n
  {
    if n < 0 {
      assert IntToString(n)[1..] == NatToString(-n);
      ParseNatToString(-n);
    } else {
      assert IsDigit(IntToString(n)[0]);
      ParseNatToString(n);
    }
  }

  /** Different years give different index keys. */
  lemma IntToStringInjective(m: int, n: int)
    requires IntToString(m) == IntToString(n)
    ensures m == n
  {
    ParseIntToString(m);
    ParseIntToString(n);
  }

  /** `s.indexOf(c)` when `c` occurs in `s`. */
  function IndexOfChar(s: String, c: char): (i: nat)
    requires c in s
    ensures i < |s| && s[i] == c
    ensures c !in s[..i]
    decreases |s|
  {
    if s[0] == c then 0
    else
      var j := IndexOfChar(s[1..], c);
      assert s[1..][..j] == s[1..j + 1];
      j + 1
  }
}
