/** The Python string operations the modelled code relies on: `sep.join`,
    `str.lower`, the substring test `needle in hay`, `",".join` of identifiers
    and the decimal rendering of an `int` in an f-string. Each comes with a
    partner that pins down what it means: piece offsets for `Join`, an
    occurrence index for `Contains`, an inverse for the decimal rendering and
    for the comma join. */
module Strings {
  import opened Wrappers

  // ---------------------------------------------------------------------------
  // sep.join(parts)
  // ---------------------------------------------------------------------------

  /** Python's `sep.join(parts)`. */
  function Join(sep: string, parts: seq<string>): string
    decreases |parts|
  {
    if |parts| == 0 then ""
    else if |parts| == 1 then parts[0]
    else parts[0] + sep + Join(sep, parts[1..])
  }

  /** Where piece `i` begins in `Join(sep, parts)`: the earlier pieces, each
      followed by one separator. */
  function Offset(sep: string, parts: seq<string>, i: nat): nat
    requires i <= |parts|
  {
    if i == 0 then 0 else Offset(sep, parts, i - 1) + |parts[i - 1]| + |sep|
  }

  lemma {:induction false} OffsetTail(sep: string, parts: seq<string>, i: nat)
    requires 1 <= i <= |parts|
    ensures Offset(sep, parts, i) == |parts[0]| + |sep| + Offset(sep, parts[1..], i - 1)
  {
    if i > 1 {
      OffsetTail(sep, parts, i - 1);
    }
  }

  /** Piece `i` of a join stands at `Offset(sep, parts, i)`, and every piece
      but the last is followed by exactly one separator: the joined string
      holds the pieces in order, separated by `sep`. */
  lemma JoinPiece(sep: string, parts: seq<string>, i: nat)
    requires i < |parts|
    ensures Offset(sep, parts, i) + |parts[i]| <= |Join(sep, parts)|
    ensures Join(sep, parts)[Offset(sep, parts, i)..Offset(sep, parts, i) + |parts[i]|] == parts[i]
    ensures i + 1 < |parts| ==>
              Offset(sep, parts, i + 1) <= |Join(sep, parts)| &&
              Join(sep, parts)[Offset(sep, parts, i) + |parts[i]|..Offset(sep, parts, i + 1)] == sep
  {
    JoinPieceAt(sep, parts, i);
    if i + 1 < |parts| {
      JoinSeparatorAt(sep, parts, i);
    }
  }

  lemma {:induction false} JoinPieceAt(sep: string, parts: seq<string>, i: nat)
    requires i < |parts|
    ensures Offset(sep, parts, i) + |parts[i]| <= |Join(sep, parts)|
    ensures Join(sep, parts)[Offset(sep, parts, i)..Offset(sep, parts, i) + |parts[i]|] == parts[i]
  {
    if i == 0 {
      if |parts| > 1 {
        assert Join(sep, parts) == parts[0] + (sep + Join(sep, parts[1..]));
      }
    } else {
      var tail := parts[1..];
      JoinPieceAt(sep, tail, i - 1);
      OffsetTail(sep, parts, i);
      var o := Offset(sep, tail, i - 1);
      assert tail[i - 1] == parts[i];
      JoinShift(sep, parts, o, o + |parts[i]|);
    }
  }

  lemma {:induction false} JoinSeparatorAt(sep: string, parts: seq<string>, i: nat)
    requires i + 1 < |parts|
    ensures Offset(sep, parts, i + 1) <= |Join(sep, parts)|
    ensures Join(sep, parts)[Offset(sep, parts, i) + |parts[i]|..Offset(sep, parts, i + 1)] == sep
  {
    if i > 0 {
      var tail := parts[1..];
      JoinSeparatorAt(sep, tail, i - 1);
      OffsetTail(sep, parts, i);
      OffsetTail(sep, parts, i + 1);
      var o := Offset(sep, tail, i - 1);
      assert tail[i - 1] == parts[i];
      JoinShift(sep, parts, o + |parts[i]|, Offset(sep, tail, i));
    } else {
      var rest := Join(sep, parts[1..]);
      assert Join(sep, parts) == parts[0] + sep + rest;
      assert Offset(sep, parts, 1) == |parts[0]| + |sep|;
      assert (parts[0] + sep + rest)[|parts[0]|..|parts[0]| + |sep|] == sep;
    }
  }

  /** A slice of the join past the first piece and its separator is a slice
      of the join of the remaining pieces. */
  lemma JoinShift(sep: string, parts: seq<string>, a: nat, b: nat)
    requires |parts| > 1 && a <= b <= |Join(sep, parts[1..])|
    ensures |parts[0] + sep| + b <= |Join(sep, parts)|
    ensures Join(sep, parts)[|parts[0] + sep| + a..|parts[0] + sep| + b] == Join(sep, parts[1..])[a..b]
  {
    var head := parts[0] + sep;
    var rest := Join(sep, parts[1..]);
    assert Join(sep, parts) == head + rest;
    assert (head + rest)[|head| + a..|head| + b] == rest[a..b];
  }

  /** The join ends with its last piece: nothing follows it. */
  lemma {:induction false} JoinLength(sep: string, parts: seq<string>)
    requires |parts| > 0
    ensures |Join(sep, parts)| == Offset(sep, parts, |parts| - 1) + |parts[|parts| - 1]|
  {
    if |parts| > 1 {
      JoinLength(sep, parts[1..]);
      OffsetTail(sep, parts, |parts| - 1);
    }
  }

  /** What iterating a bare string yields: its characters, each as a
      one-character string. */
  function Chars(s: string): (r: seq<string>)
    ensures |r| == |s|
    ensures forall i :: 0 <= i < |s| ==> r[i] == [s[i]]
  {
    seq(|s|, i requires 0 <= i < |s| => [s[i]])
  }

  /** Joining the characters of a string with a one-character separator
      interleaves them: the characters stand at the even positions and the
      separator at every odd one. */
  lemma {:induction false} JoinChars(c: char, s: string)
    requires |s| > 0
    ensures |Join([c], Chars(s))| == 2 * |s| - 1
    ensures forall i :: 0 <= i < |s| ==> Join([c], Chars(s))[2 * i] == s[i]
    ensures forall i :: 0 <= i < |s| - 1 ==> Join([c], Chars(s))[2 * i + 1] == c
    decreases |s|
  {
    if |s| > 1 {
      var t := s[1..];
      assert Chars(s)[1..] == Chars(t);
      JoinChars(c, t);
      var rest := Join([c], Chars(t));
      var out := Join([c], Chars(s));
      assert out == [s[0]] + [c] + rest;
      forall i | 1 <= i < |s|
        ensures out[2 * i] == s[i]
      {
        assert out[2 * i] == rest[2 * (i - 1)];
      }
      forall i | 1 <= i < |s| - 1
        ensures out[2 * i + 1] == c
      {
        assert out[2 * i + 1] == rest[2 * (i - 1) + 1];
      }
    }
  }

  // ---------------------------------------------------------------------------
  // str.lower(), restricted to ASCII
  // ---------------------------------------------------------------------------

  predicate IsUpper(c: char) {
    'A' <= c <= 'Z'
  }

  function LowerChar(c: char): (d: char)
    ensures !IsUpper(d)
    ensures !IsUpper(c) ==> d == c
  {
    if IsUpper(c) then (c as int - 'A' as int + 'a' as int) as char else c
  }

  /** `s.lower()` for ASCII letters; every other character is kept. */
  function Lower(s: string): (r: string)
    ensures |r| == |s|
    ensures forall i :: 0 <= i < |s| ==> r[i] == LowerChar(s[i])
  {
    seq(|s|, i requires 0 <= i < |s| => LowerChar(s[i]))
  }

  /** Lowercasing works character by character, so it commutes with slicing. */
  lemma LowerSlice(s: string, a: nat, b: nat)
    requires a <= b <= |s|
    ensures Lower(s)[a..b] == Lower(s[a..b])
  {
    assert forall k :: 0 <= k < b - a ==> Lower(s)[a..b][k] == LowerChar(s[a..b][k]);
  }

  /** Piece `i` of a join, lowercased, stands at its offset in the lowercased
      join. */
  lemma LowerJoinPiece(sep: string, parts: seq<string>, i: nat)
    requires i < |parts|
    ensures Offset(sep, parts, i) + |parts[i]| <= |Lower(Join(sep, parts))|
    ensures Lower(Join(sep, parts))[Offset(sep, parts, i)..Offset(sep, parts, i) + |parts[i]|] == Lower(parts[i])
  {
    JoinPiece(sep, parts, i);
    LowerSlice(Join(sep, parts), Offset(sep, parts, i), Offset(sep, parts, i) + |parts[i]|);
  }

  /** The separator after piece `i` of a join, lowercased, stands in the
      lowercased join. */
  lemma LowerJoinSeparator(sep: string, parts: seq<string>, i: nat)
    requires i + 1 < |parts|
    ensures Offset(sep, parts, i + 1) <= |Lower(Join(sep, parts))|
    ensures Lower(Join(sep, parts))[Offset(sep, parts, i) + |parts[i]|..Offset(sep, parts, i + 1)] == Lower(sep)
  {
    JoinPiece(sep, parts, i);
    LowerSlice(Join(sep, parts), Offset(sep, parts, i) + |parts[i]|, Offset(sep, parts, i + 1));
  }

  // ---------------------------------------------------------------------------
  // needle in hay
  // ---------------------------------------------------------------------------

  /** Python's substring test `needle in hay` (the empty string is in every string). */
  predicate Contains(hay: string, needle: string)
    decreases |hay|
  {
    needle <= hay || (|hay| > 0 && Contains(hay[1..], needle))
  }

  /** `needle` occurs in `hay` starting at index `i`. */
  ghost predicate OccursAt(hay: string, needle: string, i: int) {
    0 <= i && i + |needle| <= |hay| && hay[i..i + |needle|] == needle
  }

  lemma {:induction false} OccursContains(hay: string, needle: string, i: int)
    requires OccursAt(hay, needle, i)
    ensures Contains(hay, needle)
    decreases i
  {
    if i > 0 {
      assert hay[1..][i - 1..i - 1 + |needle|] == hay[i..i + |needle|];
      OccursContains(hay[1..], needle, i - 1);
    }
  }

  lemma {:induction false} ContainsOccurs(hay: string, needle: string)
    requires Contains(hay, needle)
    ensures exists i :: OccursAt(hay, needle, i)
    decreases |hay|
  {
    if needle <= hay {
      assert OccursAt(hay, needle, 0);
    } else {
      ContainsOccurs(hay[1..], needle);
      var i :| OccursAt(hay[1..], needle, i);
      assert hay[1..][i..i + |needle|] == hay[i + 1..i + 1 + |needle|];
      assert OccursAt(hay, needle, i + 1);
    }
  }

  /** `Contains` is exactly "occurs at some index". */
  lemma ContainsIffOccurs(hay: string, needle: string)
    ensures Contains(hay, needle) <==> exists i :: OccursAt(hay, needle, i)
  {
    if Contains(hay, needle) {
      ContainsOccurs(hay, needle);
    }
    if exists i :: OccursAt(hay, needle, i) {
      var i :| OccursAt(hay, needle, i);
      OccursContains(hay, needle, i);
    }
  }

  // ---------------------------------------------------------------------------
  // Prefixes, suffixes and trailing runs (used by the inverse parsers)
  // ---------------------------------------------------------------------------

  predicate EndsWith(s: string, suffix: string) {
    |suffix| <= |s| && s[|s| - |suffix|..] == suffix
  }

  /** Splits `s` into `(rest, run)`, where `run` is the longest suffix of `s`
      that does not contain `c`. */
  function TrailingRun(s: string, c: char): (r: (string, string))
    ensures r.0 + r.1 == s
    ensures c !in r.1
    ensures r.0 == [] || r.0[|r.0| - 1] == c
    decreases |s|
  {
    if s == [] then ([], [])
    else if s[|s| - 1] == c then (s, [])
    else
      var (rest, run) := TrailingRun(s[..|s| - 1], c);
      assert rest + run + [s[|s| - 1]] == s;
      (rest, run + [s[|s| - 1]])
  }

  /** A string made of a part ending in `c` (or empty) and a part free of `c`
      splits back into exactly those two parts. */
  lemma {:induction false} TrailingRunOf(x: string, d: string, c: char)
    requires c !in d
    requires x == [] || x[|x| - 1] == c
    ensures TrailingRun(x + d, c) == (x, d)
    decreases |d|
  {
    if d == [] {
      assert x + d == x;
    } else {
      var d' := d[..|d| - 1];
      assert (x + d)[..|x + d| - 1] == x + d';
      TrailingRunOf(x, d', c);
      assert d' + [d[|d| - 1]] == d;
    }
  }

  // ---------------------------------------------------------------------------
  // Decimal rendering of integers (f-string `{n}`) and its inverse
  // ---------------------------------------------------------------------------

  predicate IsDigit(c: char) {
    '0' <= c <= '9'
  }

  predicate AllDigits(s: string) {
    forall i :: 0 <= i < |s| ==> IsDigit(s[i])
  }

  function DigitChar(d: nat): char
    requires d < 10
  {
    ('0' as int + d) as char
  }

  function DigitValue(c: char): nat
    requires IsDigit(c)
  {
    c as int - '0' as int
  }

  /** The decimal digits of `n`, most significant first, without leading zeros. */
  function NatToString(n: nat): (s: string)
    ensures |s| > 0 && AllDigits(s)
    decreases n
  {
    if n < 10 then [DigitChar(n)] else NatToString(n / 10) + [DigitChar(n % 10)]
  }

  function ParseNat(s: string): nat
    requires AllDigits(s)
    decreases |s|
  {
    if s == [] then 0 else 10 * ParseNat(s[..|s| - 1]) + DigitValue(s[|s| - 1])
  }

  lemma {:induction false} ParseNatToString(n: nat)
    ensures ParseNat(NatToString(n)) == n
    decreases n
  {
    if n >= 10 {
      var s := NatToString(n);
      assert s[..|s| - 1] == NatToString(n / 10);
      ParseNatToString(n / 10);
    }
  }

  /** Python's `str(i)` for an `int`: a minus sign for negatives, then the digits. */
  function IntToString(i: int): (s: string)
    ensures |s| > 0 && ' ' !in s
  {
    if i < 0 then "-" + NatToString(-i) else NatToString(i)
  }

  /** Reads back what `IntToString` writes. */
  function ParseInt(s: string): Option<int> {
    if |s| > 1 && s[0] == '-' && AllDigits(s[1..]) then Some(-(ParseNat(s[1..]) as int))
    else if |s| > 0 && AllDigits(s) then Some(ParseNat(s))
    else None
  }

  lemma ParseIntToString(i: int)
    ensures ParseInt(IntToString(i)) == Some(i)
  {
    if i < 0 {
      var d := NatToString(-i);
      var s := "-" + d;
      assert s == IntToString(i);
      assert s[0] == '-' && s[1..] == d;
      ParseNatToString(-i);
    } else {
      var d := NatToString(i);
      assert IsDigit(d[0]);
      ParseNatToString(i);
    }
  }

  // ---------------------------------------------------------------------------
  // Splitting at a character: the inverse of joining with it
  // ---------------------------------------------------------------------------

  function FirstIndex(s: string, c: char): (i: nat)
    requires c in s
    ensures i < |s| && s[i] == c && c !in s[..i]
    decreases |s|
  {
    if s[0] == c then 0 else 1 + FirstIndex(s[1..], c)
  }

  /** Python's `s.split(c)` for a one-character separator. */
  function Split(s: string, c: char): (parts: seq<string>)
    ensures |parts| > 0
    decreases |s|
  {
    if c !in s then [s]
    else
      var i := FirstIndex(s, c);
      [s[..i]] + Split(s[i + 1..], c)
  }

  lemma {:induction false} FirstIndexAfter(x: string, c: char, y: string)
    requires c !in x
    ensures FirstIndex(x + [c] + y, c) == |x|
    decreases |x|
  {
    if x != [] {
      assert (x + [c] + y)[1..] == x[1..] + [c] + y;
      FirstIndexAfter(x[1..], c, y);
    }
  }

  /** Splitting at the first separator takes off the text before it. */
  lemma SplitAtFirst(x: string, c: char, y: string)
    requires c !in x
    ensures Split(x + [c] + y, c) == [x] + Split(y, c)
  {
    var s := x + [c] + y;
    assert s[|x|] == c;
    FirstIndexAfter(x, c, y);
    assert s[..|x|] == x;
    assert s[|x| + 1..] == y;
  }

  /** Splitting a join at its one-character separator gives back the pieces,
      provided no piece contains the separator. */
  lemma {:induction false} SplitJoin(parts: seq<string>, c: char)
    requires |parts| > 0
    requires forall k :: 0 <= k < |parts| ==> c !in parts[k]
    ensures Split(Join([c], parts), c) == parts
    decreases |parts|
  {
    if |parts| == 1 {
      assert Join([c], parts) == parts[0];
    } else {
      var rest := Join([c], parts[1..]);
      assert Join([c], parts) == parts[0] + [c] + rest;
      assert c !in parts[0];
      SplitAtFirst(parts[0], c, rest);
      SplitJoin(parts[1..], c);
      assert parts == [parts[0]] + parts[1..];
    }
  }
}
