/** Well-formed UTF-8, as in section 4 of RFC 3629: what Rust's `from_utf8` accepts. */
module Utf8 {
  import opened Bytes

  predicate Tail(b: byte) {
    0x80 <= b <= 0xBF
  }

  /** Length of the UTF-8 character `s` starts with; 0 when it starts with none. */
  function CharLength(s: seq<byte>): (n: nat)
    ensures n <= |s|
  {
    if |s| >= 1 && s[0] <= 0x7F then 1
    else if |s| >= 2 && 0xC2 <= s[0] <= 0xDF && Tail(s[1]) then 2
    else if |s| >= 3 && TripleLead(s[0], s[1]) && Tail(s[2]) then 3
    else if |s| >= 4 && QuadLead(s[0], s[1]) && Tail(s[2]) && Tail(s[3]) then 4
    else 0
  }

  predicate TripleLead(a: byte, b: byte) {
    || (a == 0xE0 && 0xA0 <= b <= 0xBF)
    || ((0xE1 <= a <= 0xEC || 0xEE <= a <= 0xEF) && Tail(b))
    || (a == 0xED && 0x80 <= b <= 0x9F)
  }

  predicate QuadLead(a: byte, b: byte) {
    || (a == 0xF0 && 0x90 <= b <= 0xBF)
    || (0xF1 <= a <= 0xF3 && Tail(b))
    || (a == 0xF4 && 0x80 <= b <= 0x8F)
  }

  predicate ValidUtf8(s: seq<byte>) {
    s == [] || (CharLength(s) > 0 && ValidUtf8(s[CharLength(s)..]))
  }

  // ----- The same by code points

  /** A Unicode scalar value: any code point but a surrogate. */
  predicate IsScalar(c: nat) {
    c < 0xD800 || 0xE000 <= c < 0x110000
  }

  /** The bytes of a code point, as in the table of section 3 of RFC 3629. */
  function Encoded(c: nat): (bytes: seq<byte>)
    requires IsScalar(c)
    ensures 1 <= |bytes| <= 4
  {
    if c < 0x80 then [c]
    else if c < 0x800 then [0xC0 + c / 0x40, 0x80 + c % 0x40]
    else if c < 0x10000 then [0xE0 + c / 0x1000, 0x80 + c / 0x40 % 0x40, 0x80 + c % 0x40]
    else [0xF0 + c / 0x40000, 0x80 + c / 0x1000 % 0x40, 0x80 + c / 0x40 % 0x40, 0x80 + c % 0x40]
  }

  ghost predicate AllScalar(cs: seq<nat>) {
    forall i :: 0 <= i < |cs| ==> IsScalar(cs[i])
  }

  function EncodedAll(cs: seq<nat>): (bytes: seq<byte>)
    requires AllScalar(cs)
  {
    if cs == [] then [] else Encoded(cs[0]) + EncodedAll(cs[1..])
  }

  lemma CharEncoded(c: nat, rest: seq<byte>)
    requires IsScalar(c)
    ensures CharLength(Encoded(c) + rest) == |Encoded(c)|
  {
    var s := Encoded(c) + rest;
    if 0x800 <= c < 0x10000 {
      assert s[0] == 0xE0 + c / 0x1000 && s[1] == 0x80 + c / 0x40 % 0x40 && s[2] == 0x80 + c % 0x40;
      TripleIs(c);
    } else if 0x10000 <= c {
      assert s[0] == 0xF0 + c / 0x40000 && s[1] == 0x80 + c / 0x1000 % 0x40;
      assert s[2] == 0x80 + c / 0x40 % 0x40 && s[3] == 0x80 + c % 0x40;
      QuadIs(c);
    }
  }

  lemma TripleIs(c: nat)
    requires 0x800 <= c < 0x10000 && IsScalar(c)
    ensures TripleLead(0xE0 + c / 0x1000, 0x80 + c / 0x40 % 0x40)
  {
    var a := c / 0x1000;
    assert c / 0x40 / 0x40 == a;
    assert c / 0x40 == 0x40 * a + c / 0x40 % 0x40;
  }

  lemma QuadIs(c: nat)
    requires 0x10000 <= c < 0x110000
    ensures QuadLead(0xF0 + c / 0x40000, 0x80 + c / 0x1000 % 0x40)
  {
    var a := c / 0x40000;
    assert c / 0x1000 / 0x40 == a;
    assert c / 0x1000 == 0x40 * a + c / 0x1000 % 0x40;
  }

  lemma Digits2(a: nat, b: nat)
    requires b < 0x40
    ensures (a * 0x40 + b) / 0x40 == a && (a * 0x40 + b) % 0x40 == b
  {
  }

  lemma CharDecoded(s: seq<byte>) returns (c: nat)
    requires CharLength(s) > 0
    ensures IsScalar(c) && Encoded(c) == s[..CharLength(s)]
  {
    var n := CharLength(s);
    var lead: int := s[0];
    if n == 1 {
      c := lead;
    } else {
      var x: int := s[1];
      var y: int, z: int := if n > 2 then s[2] else 0, if n > 3 then s[3] else 0;
      if n == 2 {
        Digits2(lead - 0xC0, x - 0x80);
        c := (lead - 0xC0) * 0x40 + (x - 0x80);
      } else if n == 3 {
        c := Digits3(lead - 0xE0, x - 0x80, y - 0x80);
      } else {
        var hi := Digits3(lead - 0xF0, x - 0x80, y - 0x80);
        Digits2(hi, z - 0x80);
        c := hi * 0x40 + (z - 0x80);
        assert c / 0x1000 == c / 0x40 / 0x40 && c / 0x40000 == c / 0x40 / 0x1000;
      }
    }
  }

  lemma Digits3(a: nat, b: nat, c: nat) returns (n: nat)
    requires b < 0x40 && c < 0x40
    ensures n == (a * 0x40 + b) * 0x40 + c && n / 0x1000 == a && n / 0x40 % 0x40 == b && n % 0x40 == c
  {
    n := (a * 0x40 + b) * 0x40 + c;
    Digits2(a * 0x40 + b, c);
    Digits2(a, b);
    assert n / 0x1000 == n / 0x40 / 0x40;
  }

  lemma {:induction false} EncodedIsValid(cs: seq<nat>)
    requires AllScalar(cs)
    ensures ValidUtf8(EncodedAll(cs))
  {
    hide Encoded, CharLength;
    if cs != [] {
      var head, rest := Encoded(cs[0]), EncodedAll(cs[1..]);
      CharEncoded(cs[0], rest);
      assert (head + rest)[|head|..] == rest;
      EncodedIsValid(cs[1..]);
    }
  }

  lemma {:induction false} ValidIsEncoded(s: seq<byte>) returns (cs: seq<nat>)
    requires ValidUtf8(s)
    ensures AllScalar(cs) && EncodedAll(cs) == s
    decreases |s|
  {
    hide Encoded, CharLength;
    cs := [];
    if s != [] {
      var c := CharDecoded(s);
      var more := ValidIsEncoded(s[CharLength(s)..]);
      cs := [c] + more;
      assert cs[1..] == more && s == s[..CharLength(s)] + s[CharLength(s)..];
    }
  }

  /** Valid text is exactly what sequences of Unicode scalar values encode to. */
  lemma ValidIff(s: seq<byte>)
    ensures ValidUtf8(s) <==> exists cs: seq<nat> :: AllScalar(cs) && EncodedAll(cs) == s
  {
    hide ValidUtf8, EncodedAll;
    if ValidUtf8(s) {
      var cs := ValidIsEncoded(s);
    }
    if cs: seq<nat> :| AllScalar(cs) && EncodedAll(cs) == s {
      EncodedIsValid(cs);
    }
  }
}
