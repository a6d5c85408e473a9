/**
 * Character and string operations of the JDK that the database relies on,
 * restricted to what the US-ASCII charset and Java's String methods do.
 */
module Ascii {

  /** String.trim removes every leading and trailing char whose code is at most U+0020. */
  predicate IsBlank(c: char) {
    c <= ' '
  }

  predicate IsTrimmed(s: string) {
    s == [] || (!IsBlank(s[0]) && !IsBlank(s[|s| - 1]))
  }

  /** String.trim: strips blanks from both ends; the result has none at either end, and a trimmed string is left alone. */
  function Trim(s: string): (r: string)
    ensures IsTrimmed(r)
    ensures IsTrimmed(s) ==> r == s
    decreases |s|
  {
    if s != [] && IsBlank(s[0]) then Trim(s[1..])
    else if s != [] && IsBlank(s[|s| - 1]) then Trim(s[..|s| - 1])
    else s
  }

  /**
   * What trim leaves is the piece of `s` between a run of leading blanks and
   * a run of trailing blanks.
   */
  lemma {:induction false} TrimInfix(s: string)
    ensures exists i, j | 0 <= i <= j <= |s| :: TrimsTo(s, i, j)
    decreases |s|
  {
    if s != [] && IsBlank(s[0]) {
      TrimInfix(s[1..]);
      var i, j :| 0 <= i <= j <= |s| - 1 && TrimsTo(s[1..], i, j);
      assert s[1..][i..j] == s[i + 1..j + 1];
      assert forall k | 1 <= k < i + 1 :: s[k] == s[1..][k - 1];
      assert forall k | j + 1 <= k < |s| :: s[k] == s[1..][k - 1];
      assert TrimsTo(s, i + 1, j + 1);
    } else if s != [] && IsBlank(s[|s| - 1]) {
      var front := s[..|s| - 1];
      TrimInfix(front);
      var i, j :| 0 <= i <= j <= |front| && TrimsTo(front, i, j);
      assert front[i..j] == s[i..j];
      assert forall k | j <= k < |front| :: s[k] == front[k];
      assert TrimsTo(s, i, j);
    } else {
      assert s[0..|s|] == s;
      assert TrimsTo(s, 0, |s|);
    }
  }

  /** Trim(s) is s[i..j], every char before i and from j on being a blank. */
  predicate TrimsTo(s: string, i: nat, j: nat)
    requires i <= j <= |s|
  {
    && Trim(s) == s[i..j]
    && (forall k | 0 <= k < i :: IsBlank(s[k]))
    && (forall k | j <= k < |s| :: IsBlank(s[k]))
  }

  /** Only blanks trim to the empty string. */
  lemma {:induction false} TrimBlanks(pad: string)
    requires forall i | 0 <= i < |pad| :: IsBlank(pad[i])
    ensures Trim(pad) == []
  {
    if pad != [] {
      TrimBlanks(pad[1..]);
    }
  }

  /** A trimmed string followed by blanks trims back to itself (the decoder relies on this). */
  lemma {:induction false} TrimPadded(s: string, pad: string)
    requires IsTrimmed(s)
    requires forall i | 0 <= i < |pad| :: IsBlank(pad[i])
    ensures Trim(s + pad) == s
    decreases |pad|
  {
    if s == [] {
      assert s + pad == pad;
      TrimBlanks(pad);
    } else if pad == [] {
      assert s + pad == s;
    } else {
      var t := s + pad;
      assert t[..|t| - 1] == s + pad[..|pad| - 1];
      TrimPadded(s, pad[..|pad| - 1]);
    }
  }

  /** String.toLowerCase on the ASCII letters. */
  function LowerChar(c: char): char {
    if 'A' <= c <= 'Z' then (c as int + 32) as char else c
  }

  function ToLower(s: string): (r: string)
    ensures |r| == |s|
    ensures forall i | 0 <= i < |s| :: r[i] == LowerChar(s[i])
  {
    seq(|s|, i requires 0 <= i < |s| => LowerChar(s[i]))
  }

  /** `t` occurs in `s` starting at position `i`. */
  predicate OccursAt(s: string, t: string, i: nat) {
    i + |t| <= |s| && s[i..i + |t|] == t
  }

  /** String.contains: `t` occurs in `s` at some position. */
  function Contains(s: string, t: string): (r: bool)
    ensures r <==> exists i: nat :: OccursAt(s, t, i)
  {
    if t <= s then
      assert OccursAt(s, t, 0);
      true
    else if s == [] then
      assert forall i: nat | OccursAt(s, t, i) :: false;
      false
    else
      var r := Contains(s[1..], t);
      assert forall i: nat | OccursAt(s[1..], t, i) :: OccursAt(s, t, i + 1);
      assert forall i: nat | OccursAt(s, t, i) :: i > 0 && OccursAt(s[1..], t, i - 1);
      r
  }

  /** Every string contains itself, so an exact match is also a substring match. */
  lemma ContainsSelf(s: string)
    ensures Contains(s, s)
  {
  }

  /** `t` occurs in `s` at position `i` when both are folded to lower case, char by char. */
  predicate OccursIgnoringCase(s: string, t: string, i: nat) {
    i + |t| <= |s| && forall j | 0 <= j < |t| :: LowerChar(s[i + j]) == LowerChar(t[j])
  }

  /** The matching rule of the database's search: case-insensitive substring. */
  function ContainsIgnoreCase(s: string, t: string): (r: bool)
    ensures r <==> exists i: nat :: OccursIgnoringCase(s, t, i)
  {
    var ls, lt := ToLower(s), ToLower(t);
    assert forall i: nat :: OccursAt(ls, lt, i) <==> OccursIgnoringCase(s, t, i) by {
      forall i: nat
        ensures OccursAt(ls, lt, i) <==> OccursIgnoringCase(s, t, i)
      {
        if i + |t| <= |s| {
          var w := ls[i..i + |t|];
          assert forall j | 0 <= j < |t| :: w[j] == LowerChar(s[i + j]);
          if OccursIgnoringCase(s, t, i) {
            assert w == lt;
          }
        }
      }
    }
    Contains(ls, lt)
  }

  /** The letters A-Z and a-z, the class `[a-zA-Z]` of java.util.regex. */
  predicate IsAsciiLetter(c: char) {
    ('a' <= c <= 'z') || ('A' <= c <= 'Z')
  }

  predicate IsAsciiDigit(c: char) {
    '0' <= c <= '9'
  }

  predicate IsAscii(c: char) {
    c < '\U{0080}'
  }

  /** An unsigned byte of the database file, as `flagByte & 0xFF` reads it. */
  newtype uint8 = x: int | 0 <= x < 0x100

  /** String.getBytes("US-ASCII"): a char outside US-ASCII becomes '?'. */
  function EncodeChar(c: char): (b: uint8)
    ensures b < 0x80
    ensures IsAscii(c) ==> b as int == c as int
  {
    if IsAscii(c) then c as int as uint8 else 0x3F
  }

  function EncodeString(s: string): (b: seq<uint8>)
    ensures |b| == |s|
  {
    seq(|s|, i requires 0 <= i < |s| => EncodeChar(s[i]))
  }

  /** new String(bytes, "US-ASCII"): a byte above 0x7F becomes U+FFFD. */
  function DecodeByte(b: uint8): (c: char)
    ensures IsAscii(c) <==> b < 0x80
    ensures IsAscii(c) ==> EncodeChar(c) == b
  {
    if b < 0x80 then (b as int) as char else '\U{FFFD}'
  }

  function DecodeBytes(b: seq<uint8>): (s: string)
    ensures |s| == |b|
  {
    seq(|b|, i requires 0 <= i < |b| => DecodeByte(b[i]))
  }

  lemma DecodeEncodeChar(c: char)
    requires IsAscii(c)
    ensures DecodeByte(EncodeChar(c)) == c
  {
  }
}
