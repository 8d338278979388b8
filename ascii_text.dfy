/** Character and string operations the portal pages and the backend rely on:
    ASCII case mapping (JavaScript `toLowerCase`/`toUpperCase`, Python
    `str.lower`), substring search (`String.prototype.includes`), splitting and
    joining on a separator (`split`/`join`), digit removal
    (`replace(/\d+/g, '')`) and hexadecimal digits (`parseInt(_, 16)`,
    `bytes.fromhex`, `binascii.hexlify`). */
module AsciiText {

  predicate IsLowerLetter(c: char) { 'a' <= c <= 'z' }
  predicate IsUpperLetter(c: char) { 'A' <= c <= 'Z' }
  predicate IsDigit(c: char) { '0' <= c <= '9' }

  // ---------------------------------------------------------------------------
  // Case mapping
  // ---------------------------------------------------------------------------

  function LowerChar(c: char): (d: char)
    ensures IsUpperLetter(c) ==> IsLowerLetter(d)
    ensures !IsUpperLetter(c) ==> d == c
  {
    if IsUpperLetter(c) then (c as int + 32) as char else c
  }

  function UpperChar(c: char): (d: char)
    ensures IsLowerLetter(c) ==> IsUpperLetter(d)
    ensures !IsLowerLetter(c) ==> d == c
  {
    if IsLowerLetter(c) then (c as int - 32) as char else c
  }

  function Lower(s: string): (r: string)
    ensures |r| == |s|
    ensures forall i :: 0 <= i < |s| ==> r[i] == LowerChar(s[i])
  {
    seq(|s|, i requires 0 <= i < |s| => LowerChar(s[i]))
  }

  function Upper(s: string): (r: string)
    ensures |r| == |s|
    ensures forall i :: 0 <= i < |s| ==> r[i] == UpperChar(s[i])
  {
    seq(|s|, i requires 0 <= i < |s| => UpperChar(s[i]))
  }

  /** JavaScript `s.charAt(0).toUpperCase() + s.slice(1)`. */
  function Capitalize(s: string): (r: string)
  {
    if s == [] then "" else [UpperChar(s[0])] + s[1..]
  }

  predicate AllLowerLetters(s: string) { forall i :: 0 <= i < |s| ==> IsLowerLetter(s[i]) }
  predicate AllDigits(s: string) { forall i :: 0 <= i < |s| ==> IsDigit(s[i]) }

  lemma LowerAppend(a: string, b: string)
    ensures Lower(a + b) == Lower(a) + Lower(b)
  {
  }

  lemma LowerIdempotent(s: string)
    ensures Lower(Lower(s)) == Lower(s)
  {
  }

  /** Lower-casing before upper-casing changes nothing. */
  lemma UpperOfLower(s: string)
    ensures Upper(Lower(s)) == Upper(s)
  {
  }

  /** Upper-casing before lower-casing changes nothing. */
  lemma LowerOfUpper(s: string)
    ensures Lower(Upper(s)) == Lower(s)
  {
  }

  lemma LowerOfCapitalize(s: string)
    ensures Lower(Capitalize(s)) == Lower(s)
  {
  }

  /** Case mapping moves no character that is not a letter. */
  lemma LowerKeepsNonLetter(s: string, c: char, i: int)
    requires !IsUpperLetter(c) && !IsLowerLetter(c) && 0 <= i < |s|
    ensures Lower(s)[i] == c <==> s[i] == c
  {
  }

  // ---------------------------------------------------------------------------
  // Substring search
  // ---------------------------------------------------------------------------

  predicate OccursAt(hay: string, needle: string, i: int)
  {
    0 <= i && i + |needle| <= |hay| && hay[i..i + |needle|] == needle
  }

  /** JavaScript `hay.includes(needle)`. */
  predicate Contains(hay: string, needle: string)
  {
    exists i | 0 <= i <= |hay| - |needle| :: OccursAt(hay, needle, i)
  }

  lemma ContainsEmpty(hay: string)
    ensures Contains(hay, "")
  {
    assert OccursAt(hay, "", 0);
  }

  // ---------------------------------------------------------------------------
  // Splitting and joining on a separator
  // ---------------------------------------------------------------------------

  /** JavaScript `s.split(sep)` and Python `s.split(sep)` for a one-character
      separator: the pieces between consecutive separators, always at least
      one. */
  function Split(s: string, sep: char): (parts: seq<string>)
    ensures |parts| >= 1
    ensures |parts| == 1 <==> sep !in s
    ensures forall k :: 0 <= k < |parts| ==> sep !in parts[k]
    decreases |s|
  {
    if s == [] then [""]
    else if s[0] == sep then [""] + Split(s[1..], sep)
    else
      var rest := Split(s[1..], sep);
      [[s[0]] + rest[0]] + rest[1..]
  }

  /** `parts.join(sep)`. */
  function Join(parts: seq<string>, sep: char): (s: string)
    requires |parts| >= 1
    decreases |parts|
  {
    if |parts| == 1 then parts[0] else parts[0] + [sep] + Join(parts[1..], sep)
  }

  /** Splitting a text that starts with a separator-free piece. */
  lemma {:induction false} SplitPrefix(a: string, t: string, sep: char)
    requires sep !in a
    ensures Split(a + t, sep) == [a + Split(t, sep)[0]] + Split(t, sep)[1..]
    decreases |a|
  {
    if a != [] {
      assert (a + t)[0] == a[0] && (a + t)[1..] == a[1..] + t;
      SplitPrefix(a[1..], t, sep);
      assert [a[0]] + (a[1..] + Split(t, sep)[0]) == a + Split(t, sep)[0];
    } else {
      assert a + t == t && a + Split(t, sep)[0] == Split(t, sep)[0];
      assert [Split(t, sep)[0]] + Split(t, sep)[1..] == Split(t, sep);
    }
  }

  /** The first piece of `a + sep + t` is `a` when `a` holds no separator. */
  lemma FirstPiece(a: string, t: string, sep: char)
    requires sep !in a
    ensures Split(a + [sep] + t, sep)[0] == a
    ensures Split(a + [sep] + t, sep)[1..] == Split(t, sep)
  {
    SplitPrefix(a, [sep] + t, sep);
    assert a + [sep] + t == a + ([sep] + t);
    assert ([sep] + t)[0] == sep && ([sep] + t)[1..] == t;
  }

  lemma {:induction false} SplitOfJoin(parts: seq<string>, sep: char)
    requires |parts| >= 1
    requires forall k :: 0 <= k < |parts| ==> sep !in parts[k]
    ensures Split(Join(parts, sep), sep) == parts
    decreases |parts|
  {
    if |parts| == 1 {
      SplitPrefix(parts[0], "", sep);
      assert parts[0] + "" == parts[0];
    } else {
      SplitOfJoin(parts[1..], sep);
      FirstPiece(parts[0], Join(parts[1..], sep), sep);
    }
  }

  /** A first piece followed by further pieces splits back apart. */
  lemma SplitOfJoinAfter(first: string, rest: seq<string>, sep: char)
    requires sep !in first
    requires forall k :: 0 <= k < |rest| ==> sep !in rest[k]
    ensures Split(Join([first] + rest, sep), sep) == [first] + rest
  {
    var parts := [first] + rest;
    forall k | 0 <= k < |parts| ensures sep !in parts[k] {
      if k > 0 {
        assert parts[k] == rest[k - 1];
      }
    }
    SplitOfJoin(parts, sep);
  }

  /** A character other than the separator occurs in a join only if it occurs
      in one of the pieces. */
  lemma {:induction false} JoinAvoids(parts: seq<string>, sep: char, c: char)
    requires |parts| >= 1 && c != sep
    requires forall k :: 0 <= k < |parts| ==> c !in parts[k]
    ensures c !in Join(parts, sep)
    decreases |parts|
  {
    if |parts| > 1 {
      JoinAvoids(parts[1..], sep, c);
    }
  }

  lemma {:induction false} JoinOfSplit(s: string, sep: char)
    ensures Join(Split(s, sep), sep) == s
    decreases |s|
  {
    if s != [] {
      JoinOfSplit(s[1..], sep);
      var rest := Split(s[1..], sep);
      if s[0] != sep {
        var parts := [[s[0]] + rest[0]] + rest[1..];
        if |rest| == 1 {
          assert Join(parts, sep) == [s[0]] + rest[0];
        } else {
          assert parts[1..] == rest[1..];
          assert Join(rest, sep) == rest[0] + [sep] + Join(rest[1..], sep);
        }
        assert [s[0]] + s[1..] == s;
      }
    }
  }

  // ---------------------------------------------------------------------------
  // Digit removal
  // ---------------------------------------------------------------------------

  /** JavaScript `s.replace(/\d+/g, '')`: every ASCII digit removed. */
  function StripDigits(s: string): (r: string)
    ensures forall i :: 0 <= i < |r| ==> !IsDigit(r[i])
    ensures |r| <= |s|
  {
    if s == [] then "" else (if IsDigit(s[0]) then "" else [s[0]]) + StripDigits(s[1..])
  }

  lemma {:induction false} StripDigitsAppend(a: string, b: string)
    ensures StripDigits(a + b) == StripDigits(a) + StripDigits(b)
    decreases |a|
  {
    if a == [] {
      assert a + b == b;
    } else {
      assert (a + b)[0] == a[0] && (a + b)[1..] == a[1..] + b;
      StripDigitsAppend(a[1..], b);
    }
  }

  lemma {:induction false} StripDigitsOfDigits(s: string)
    requires AllDigits(s)
    ensures StripDigits(s) == ""
    decreases |s|
  {
    if s != [] { StripDigitsOfDigits(s[1..]); }
  }

  lemma {:induction false} StripDigitsOfLetters(s: string)
    requires AllLowerLetters(s)
    ensures StripDigits(s) == s
    decreases |s|
  {
    if s != [] {
      StripDigitsOfLetters(s[1..]);
      assert [s[0]] + s[1..] == s;
    }
  }

  lemma {:induction false} StripDigitsOfLower(s: string)
    ensures StripDigits(Lower(s)) == Lower(StripDigits(s))
    decreases |s|
  {
    if s != [] {
      StripDigitsOfLower(s[1..]);
      assert Lower(s)[0] == LowerChar(s[0]) && Lower(s)[1..] == Lower(s[1..]);
      var head := if IsDigit(s[0]) then "" else [s[0]];
      LowerAppend(head, StripDigits(s[1..]));
    }
  }

  // ---------------------------------------------------------------------------
  // Hexadecimal digits
  // ---------------------------------------------------------------------------

  predicate IsHexDigit(c: char) { IsDigit(c) || 'a' <= c <= 'f' || 'A' <= c <= 'F' }

  predicate AllHex(s: string) { forall i :: 0 <= i < |s| ==> IsHexDigit(s[i]) }

  predicate IsLowerHexDigit(c: char) { IsDigit(c) || 'a' <= c <= 'f' }

  function HexDigitValue(c: char): (v: nat)
    requires IsHexDigit(c)
    ensures v < 16
  {
    if IsDigit(c) then c as int - '0' as int
    else if 'a' <= c <= 'f' then c as int - 'a' as int + 10
    else c as int - 'A' as int + 10
  }

  /** The lower-case digit `binascii.hexlify` writes for `v`. */
  function HexDigitChar(v: nat): (c: char)
    requires v < 16
    ensures IsLowerHexDigit(c) && IsHexDigit(c) && HexDigitValue(c) == v
  {
    if v < 10 then ('0' as int + v) as char else ('a' as int + v - 10) as char
  }

  lemma HexDigitCharOfValue(c: char)
    requires IsHexDigit(c)
    ensures HexDigitChar(HexDigitValue(c)) == LowerChar(c)
  {
  }

  function Pow16(n: nat): (p: nat)
    ensures p >= 1
  {
    if n == 0 then 1 else 16 * Pow16(n - 1)
  }

  /** The value of a string of hexadecimal digits, most significant first
      (`parseInt(s, 16)`, `bytes.fromhex` read as one big-endian number). */
  function HexValue(s: string): (v: nat)
    requires AllHex(s)
    ensures v < Pow16(|s|)
    decreases |s|
  {
    if s == [] then 0
    else
      var h := HexValue(s[..|s| - 1]);
      assert h <= Pow16(|s| - 1) - 1;
      h * 16 + HexDigitValue(s[|s| - 1])
  }

  /** `v` written with exactly `width` lower-case hexadecimal digits. */
  function HexString(v: nat, width: nat): (s: string)
    requires v < Pow16(width)
    ensures |s| == width && AllHex(s)
    ensures forall i :: 0 <= i < |s| ==> IsLowerHexDigit(s[i])
    decreases width
  {
    if width == 0 then ""
    else
      assert v / 16 < Pow16(width - 1);
      HexString(v / 16, width - 1) + [HexDigitChar(v % 16)]
  }

  /** Writing a number in hexadecimal and reading it back gives the number. */
  lemma {:induction false} HexValueOfString(v: nat, width: nat)
    requires v < Pow16(width)
    ensures HexValue(HexString(v, width)) == v
    decreases width
  {
    if width > 0 {
      assert v / 16 < Pow16(width - 1);
      HexValueOfString(v / 16, width - 1);
      var s := HexString(v, width);
      assert s[..|s| - 1] == HexString(v / 16, width - 1);
    }
  }

  /** Reading a hexadecimal string and writing it back gives its lower-case form. */
  lemma {:induction false} HexStringOfValue(s: string)
    requires AllHex(s)
    ensures HexString(HexValue(s), |s|) == Lower(s)
    decreases |s|
  {
    if s != [] {
      var init := s[..|s| - 1];
      HexStringOfValue(init);
      var v := HexValue(s);
      assert v / 16 == HexValue(init) && v % 16 == HexDigitValue(s[|s| - 1]);
      HexDigitCharOfValue(s[|s| - 1]);
      assert s == init + [s[|s| - 1]];
      LowerAppend(init, [s[|s| - 1]]);
    }
  }
}
