/** The string operations the magnet parser applies to a `&str`: its length
    in UTF-8 bytes (`str::len`) and ASCII case mapping
    (`to_ascii_lowercase`, `to_ascii_uppercase`). Strings are sequences of
    Unicode scalar values. */
module AsciiText {
  /** The number of bytes of the UTF-8 encoding of one scalar value. */
  function Utf8Width(c: char): nat
  {
    if c as int < 0x80 then 1
    else if c as int < 0x800 then 2
    else if c as int < 0x1_0000 then 3
    else 4
  }

  /** `str::len`: the length of the UTF-8 encoding. */
  function Utf8Len(s: string): nat
  {
    if s == [] then 0 else Utf8Width(s[0]) + Utf8Len(s[1..])
  }

  predicate IsAscii(s: string)
  {
    forall i :: 0 <= i < |s| ==> s[i] as int < 0x80
  }

  /** One byte per character exactly when the string is ASCII; otherwise
      the byte length exceeds the character count. */
  lemma {:induction false} Utf8LenAscii(s: string)
    ensures Utf8Len(s) >= |s|
    ensures Utf8Len(s) == |s| <==> IsAscii(s)
  {
    if s != [] {
      Utf8LenAscii(s[1..]);
      if IsAscii(s[1..]) && s[0] as int < 0x80 {
        forall i | 0 <= i < |s| ensures s[i] as int < 0x80 {
          if i > 0 { assert s[i] == s[1..][i - 1]; }
        }
      }
      if IsAscii(s) {
        forall i | 0 <= i < |s[1..]| ensures s[1..][i] as int < 0x80 {
          assert s[1..][i] == s[i + 1];
        }
      }
    }
  }

  function LowerChar(c: char): char
  {
    if 'A' <= c <= 'Z' then (c as int + 0x20) as char else c
  }

  function UpperChar(c: char): char
  {
    if 'a' <= c <= 'z' then (c as int - 0x20) as char else c
  }

  /** `to_ascii_lowercase`. */
  function AsciiLower(s: string): (r: string)
    ensures |r| == |s|
  {
    seq(|s|, i requires 0 <= i < |s| => LowerChar(s[i]))
  }

  /** `to_ascii_uppercase`. */
  function AsciiUpper(s: string): (r: string)
    ensures |r| == |s|
  {
    seq(|s|, i requires 0 <= i < |s| => UpperChar(s[i]))
  }

  /** Case mapping changes only ASCII letters, so it keeps the UTF-8
      length, and lower-casing or upper-casing forgets any earlier case
      mapping. */
  lemma {:induction false} CaseMapping(s: string)
    ensures Utf8Len(AsciiLower(s)) == Utf8Len(s) && Utf8Len(AsciiUpper(s)) == Utf8Len(s)
    ensures AsciiLower(AsciiUpper(s)) == AsciiLower(s)
    ensures AsciiUpper(AsciiLower(s)) == AsciiUpper(s)
    ensures AsciiLower(AsciiLower(s)) == AsciiLower(s)
    ensures AsciiUpper(AsciiUpper(s)) == AsciiUpper(s)
    ensures forall i :: 0 <= i < |s| ==> (AsciiLower(s)[i] as int < 0x80 <==> s[i] as int < 0x80)
    ensures forall i :: 0 <= i < |s| ==> (AsciiUpper(s)[i] as int < 0x80 <==> s[i] as int < 0x80)
  {
    if s != [] {
      CaseMapping(s[1..]);
      assert AsciiLower(s)[1..] == AsciiLower(s[1..]);
      assert AsciiUpper(s)[1..] == AsciiUpper(s[1..]);
    }
  }
}
