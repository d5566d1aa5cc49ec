/** Hexadecimal text: how bytes are written, read back, and ordered as text. */
module Hex {
  import opened Bytes

  function Digit(n: nat): char
    requires n < 16
  {
    if n < 10 then ('0' as int + n) as char else ('a' as int + n - 10) as char
  }

  /** The value of a hex digit of either case, -1 for any other character. */
  function DigitValue(c: char): int {
    if '0' <= c <= '9' then c as int - '0' as int
    else if 'a' <= c <= 'f' then c as int - 'a' as int + 10
    else if 'A' <= c <= 'F' then c as int - 'A' as int + 10
    else -1
  }

  function LowerChar(c: char): char {
    if 'A' <= c <= 'Z' then (c as int - 'A' as int + 'a' as int) as char else c
  }

  function Lower(s: string): string { seq(|s|, i requires 0 <= i < |s| => LowerChar(s[i])) }

  function ToHex(b: Bytes): (r: string)
    ensures |r| == 2 * |b|
  {
    if b == [] then "" else [Digit(b[0] / 16), Digit(b[0] % 16)] + ToHex(b[1..])
  }

  predicate IsPair(s: string) { |s| >= 2 && DigitValue(s[0]) >= 0 && DigitValue(s[1]) >= 0 }

  /** Buffer.from(s, "hex"): pairs of digits up to the first that is none; an odd digit at the end is dropped. */
  function FromHex(s: string): Bytes {
    if IsPair(s) then [DigitValue(s[0]) * 16 + DigitValue(s[1])] + FromHex(s[2..]) else []
  }

  predicate WellFormed(s: string) { |s| % 2 == 0 && forall i :: 0 <= i < |s| ==> DigitValue(s[i]) >= 0 }

  /** Code-unit order of strings. */
  function CompareText(a: string, b: string): int {
    if a == "" then (if b == "" then 0 else -1)
    else if b == "" then 1
    else if a[0] < b[0] then -1
    else if b[0] < a[0] then 1
    else CompareText(a[1..], b[1..])
  }

  lemma {:induction false} ReadsBack(b: Bytes)
    ensures WellFormed(ToHex(b)) && FromHex(ToHex(b)) == b
  {
    if b != [] {
      var rest := ToHex(b[1..]);
      ReadsBack(b[1..]);
      assert ToHex(b)[2..] == rest;
      assert b == [b[0]] + b[1..];
    }
  }

  lemma DigitRead(c: char)
    requires DigitValue(c) >= 0
    ensures DigitValue(c) < 16 && Digit(DigitValue(c)) == LowerChar(c)
  {
  }

  lemma PairWritesBack(s: string)
    requires IsPair(s)
    ensures ToHex(FromHex(s)) == [LowerChar(s[0]), LowerChar(s[1])] + ToHex(FromHex(s[2..]))
  {
    var b := FromHex(s);
    assert b[1..] == FromHex(s[2..]);
    DigitRead(s[0]);
    DigitRead(s[1]);
    assert b[0] / 16 == DigitValue(s[0]) && b[0] % 16 == DigitValue(s[1]);
  }

  lemma {:induction false} WritesBack(s: string)
    requires WellFormed(s)
    ensures ToHex(FromHex(s)) == Lower(s)
  {
    if s != "" {
      var rest := s[2..];
      assert forall i :: 0 <= i < |rest| ==> rest[i] == s[i + 2];
      WritesBack(rest);
      PairWritesBack(s);
      assert Lower(s) == [LowerChar(s[0]), LowerChar(s[1])] + Lower(rest);
    }
  }

  lemma {:induction false} LowerHex(b: Bytes)
    ensures Lower(ToHex(b)) == ToHex(b)
  {
    if b != [] {
      LowerHex(b[1..]);
      assert Lower(ToHex(b)) == [LowerChar(ToHex(b)[0]), LowerChar(ToHex(b)[1])] + Lower(ToHex(b[1..]));
    }
  }

  /** Hex text is ordered as the bytes it stands for. */
  lemma {:induction false} TextOrderIsByteOrder(a: Bytes, b: Bytes)
    ensures CompareText(ToHex(a), ToHex(b)) == Compare(a, b)
  {
    if a != [] && b != [] {
      var s, t := ToHex(a), ToHex(b);
      assert s[1..][1..] == ToHex(a[1..]) && t[1..][1..] == ToHex(b[1..]);
      assert s[1..][0] == Digit(a[0] % 16) && t[1..][0] == Digit(b[0] % 16);
      DigitsOrder(a[0], b[0]);
      if a[0] == b[0] {
        TextOrderIsByteOrder(a[1..], b[1..]);
      }
    }
  }

  lemma DigitsOrder(x: byte, y: byte)
    ensures x < y <==> Digit(x / 16) < Digit(y / 16) || (x / 16 == y / 16 && Digit(x % 16) < Digit(y % 16))
    ensures x == y <==> x / 16 == y / 16 && x % 16 == y % 16
  {
  }

  lemma {:induction false} LowerReadsAlike(s: string)
    requires WellFormed(s)
    ensures WellFormed(Lower(s)) && FromHex(Lower(s)) == FromHex(s)
  {
    if s != "" {
      var rest := s[2..];
      assert forall i :: 0 <= i < |rest| ==> rest[i] == s[i + 2];
      LowerReadsAlike(rest);
      assert Lower(s)[2..] == Lower(rest);
      assert forall i :: 2 <= i < |s| ==> Lower(s)[i] == Lower(rest)[i - 2];
    }
  }

  /** From any text the longest well-formed beginning is read. */
  lemma {:induction false} ReadsLongestBeginning(s: string) returns (n: nat)
    ensures n <= |s| && WellFormed(s[..n]) && FromHex(s) == FromHex(s[..n]) && n == 2 * |FromHex(s)|
    ensures forall m: nat :: n < m <= |s| ==> !WellFormed(s[..m])
  {
    if IsPair(s) {
      var r := ReadsLongestBeginning(s[2..]);
      n := r + 2;
      assert s[..n][2..] == s[2..][..r];
      forall i | 0 <= i < n ensures DigitValue(s[..n][i]) >= 0 {
        assert i >= 2 ==> s[..n][i] == s[2..][..r][i - 2];
      }
      forall m: nat | n < m <= |s| ensures !WellFormed(s[..m]) {
        var long := s[..m];
        assert !WellFormed(s[2..][..m - 2]) && s[2..][..m - 2] == long[2..];
        assert forall i :: 0 <= i < |long[2..]| ==> long[2..][i] == long[i + 2];
      }
    } else {
      n := 0;
      forall m: nat | 0 < m <= |s| ensures !WellFormed(s[..m]) {
        assert m >= 2 ==> s[..m][0] == s[0] && s[..m][1] == s[1];
      }
    }
  }
}
