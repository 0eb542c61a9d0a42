/** Strings, known by their UTF-8 bytes. */
module Strings {
  import opened Bytes

  /** A string is its UTF-8 bytes. */
  type Text = ByteString

  predicate Continues(s: ByteString, i: nat) {
    i < |s| && 0x80 <= s[i] <= 0xbf
  }

  /** Well-formed UTF-8: no overlong forms, no surrogates, nothing above U+10FFFF. */
  predicate Utf8(s: ByteString) {
    if s == [] then
      true
    else if s[0] < 0x80 then
      Utf8(s[1..])
    else if 0xc2 <= s[0] <= 0xdf then
      Continues(s, 1) && Utf8(s[2..])
    else if 0xe0 <= s[0] <= 0xef then
      && Continues(s, 1) && Continues(s, 2)
      && (s[0] == 0xe0 ==> s[1] >= 0xa0)
      && (s[0] == 0xed ==> s[1] <= 0x9f)
      && Utf8(s[3..])
    else if 0xf0 <= s[0] <= 0xf4 then
      && Continues(s, 1) && Continues(s, 2) && Continues(s, 3)
      && (s[0] == 0xf0 ==> s[1] >= 0x90)
      && (s[0] == 0xf4 ==> s[1] <= 0x8f)
      && Utf8(s[4..])
    else
      false
  }

  lemma {:induction false} Ascii(s: ByteString)
    requires forall i | 0 <= i < |s| :: s[i] < 0x80
    ensures Utf8(s)
  {
    if s != [] {
      Ascii(s[1..]);
    }
  }

  // The characters of a string

  /** A Unicode scalar value: a code point that is not a surrogate. */
  predicate IsCharacter(n: nat) {
    n < 0xd800 || 0xe000 <= n < 0x110000
  }

  /** One to four bytes, the first of them saying how many. */
  function Encoded(n: nat): (s: ByteString)
    requires IsCharacter(n)
  {
    if n < 0x80 then
      [n]
    else if n < 0x800 then
      [0xc0 + n / 0x40, 0x80 + n % 0x40]
    else if n < 0x10000 then
      [0xe0 + n / 0x40 / 0x40, 0x80 + n / 0x40 % 0x40, 0x80 + n % 0x40]
    else
      [0xf0 + n / 0x40 / 0x40 / 0x40, 0x80 + n / 0x40 / 0x40 % 0x40, 0x80 + n / 0x40 % 0x40, 0x80 + n % 0x40]
  }

  ghost predicate AllCharacters(ns: seq<nat>) {
    forall i | 0 <= i < |ns| :: IsCharacter(ns[i])
  }

  function EncodedAll(ns: seq<nat>): (s: ByteString)
    requires AllCharacters(ns)
  {
    if ns == [] then [] else Encoded(ns[0]) + EncodedAll(ns[1..])
  }

  ghost predicate Encodes(ns: seq<nat>, s: ByteString) {
    AllCharacters(ns) && EncodedAll(ns) == s
  }

  lemma EncodesCharacter(n: nat, rest: ByteString)
    requires IsCharacter(n) && Utf8(rest)
    ensures Utf8(Encoded(n) + rest)
  {
    var first := Encoded(n);
    assert (first + rest)[|first|..] == rest;
  }

  lemma {:induction false} EncodedIsUtf8(ns: seq<nat>)
    requires AllCharacters(ns)
    ensures Utf8(EncodedAll(ns))
  {
    hide Utf8, Encoded;
    if ns == [] {
      assert Utf8([]) by { Ascii([]); }
    } else {
      EncodedIsUtf8(ns[1..]);
      EncodesCharacter(ns[0], EncodedAll(ns[1..]));
    }
  }

  /** Six more bits behind those of n. */
  function Longer(n: nat, next: Byte): nat
    requires next >= 0x80
  {
    n * 0x40 + (next - 0x80)
  }

  lemma LongerDigits(n: nat, next: Byte)
    requires 0x80 <= next <= 0xbf
    ensures Longer(n, next) / 0x40 == n && Longer(n, next) % 0x40 == next - 0x80
  {
  }

  lemma ThreeBytes(s: ByteString) returns (n: nat)
    requires s != [] && 0xe0 <= s[0] <= 0xef && Utf8(s)
    ensures IsCharacter(n) && |s| >= 3 && Encoded(n) == s[..3] && Utf8(s[3..])
  {
    var first: nat := s[0] - 0xe0;
    hide Longer;
    n := Longer(Longer(first, s[1]), s[2]);
    LongerDigits(first, s[1]);
    LongerDigits(Longer(first, s[1]), s[2]);
  }

  lemma FourBytes(s: ByteString) returns (n: nat)
    requires s != [] && 0xf0 <= s[0] <= 0xf4 && Utf8(s)
    ensures IsCharacter(n) && |s| >= 4 && Encoded(n) == s[..4] && Utf8(s[4..])
  {
    var first: nat := s[0] - 0xf0;
    hide Longer;
    n := Longer(Longer(Longer(first, s[1]), s[2]), s[3]);
    LongerDigits(first, s[1]);
    LongerDigits(Longer(first, s[1]), s[2]);
    LongerDigits(Longer(Longer(first, s[1]), s[2]), s[3]);
  }

  /** The first character of a string. */
  lemma FirstCharacter(s: ByteString) returns (n: nat)
    requires Utf8(s) && s != []
    ensures IsCharacter(n) && Encoded(n) <= s && Encoded(n) != [] && Utf8(s[|Encoded(n)|..])
  {
    if s[0] < 0x80 {
      n := s[0];
    } else if s[0] <= 0xdf {
      var first: nat := s[0] - 0xc0;
      n := Longer(first, s[1]);
      LongerDigits(first, s[1]);
    } else if s[0] <= 0xef {
      n := ThreeBytes(s);
    } else {
      n := FourBytes(s);
    }
  }

  lemma {:induction false} CharactersOf(s: ByteString) returns (ns: seq<nat>)
    requires Utf8(s)
    ensures Encodes(ns, s)
    decreases |s|
  {
    hide Utf8, Encoded, IsCharacter;
    if s == [] {
      ns := [];
    } else {
      var n := FirstCharacter(s);
      var rest := CharactersOf(s[|Encoded(n)|..]);
      ns := [n] + rest;
      assert ns[1..] == rest;
    }
  }

  /** The accepted strings are exactly the encodings of characters. */
  lemma Utf8Exactly(s: ByteString)
    ensures Utf8(s) <==> exists ns :: Encodes(ns, s)
  {
    hide Utf8;
    if Utf8(s) {
      var ns := CharactersOf(s);
    }
    forall ns | Encodes(ns, s) ensures Utf8(s) {
      EncodedIsUtf8(ns);
    }
  }
}
