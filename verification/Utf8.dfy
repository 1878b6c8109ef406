/** What UTF-8 is, by arithmetic on code points (section 3 of RFC 3629), and that the table
    `ValidUtf8` checks text by (section 4) accepts exactly that. */
module Utf8 {
  import opened Bits
  import opened Headers
  import opened Wire

  /** A code point that is not half of a surrogate pair. */
  type Scalar = c: int | 0 <= c <= 0x10FFFF && !(0xD800 <= c <= 0xDFFF)

  function ScalarBytes(c: Scalar): (b: Bytes)
    ensures b != []
  {
    if c < 0x80 then [c]
    else if c < 0x800 then [0xC0 + c / 0x40, 0x80 + c % 0x40]
    else if c < 0x1_0000 then [0xE0 + c / 0x40 / 0x40, 0x80 + c / 0x40 % 0x40, 0x80 + c % 0x40]
    else [0xF0 + c / 0x40 / 0x40 / 0x40, 0x80 + c / 0x40 / 0x40 % 0x40, 0x80 + c / 0x40 % 0x40, 0x80 + c % 0x40]
  }

  function TextBytes(cs: seq<Scalar>): Bytes {
    if cs == [] then [] else ScalarBytes(cs[0]) + TextBytes(cs[1..])
  }

  /** One scalar value's bytes in front of any others are taken together. */
  lemma ScalarThen(c: Scalar, rest: Bytes)
    ensures ValidUtf8(ScalarBytes(c) + rest) <==> ValidUtf8(rest)
  {
    var s := ScalarBytes(c) + rest;
    assert s[|ScalarBytes(c)|..] == rest;
  }

  /** The code point the first bytes of `s` spell, by the length the first of them announces. */
  function FirstOf(s: Bytes): int {
    if s == [] || Continuation(s[0]) then 0
    else if s[0] < 0x80 then s[0]
    else if s[0] < 0xE0 then if |s| < 2 then 0 else Joined(s[0] - 0xC0, s[1])
    else if s[0] < 0xF0 then if |s| < 3 then 0 else Joined(Joined(s[0] - 0xE0, s[1]), s[2])
    else if |s| < 4 then 0 else Joined(Joined(Joined(s[0] - 0xF0, s[1]), s[2]), s[3])
  }

  /** Six more bits, from a continuation byte. */
  function Joined(high: int, b: u8): int { high * 0x40 + b - 0x80 }

  lemma FirstOfScalar(c: Scalar, rest: Bytes)
    ensures FirstOf(ScalarBytes(c) + rest) == c
  {
  }

  lemma JoinedParts(high: int, b: u8)
    requires Continuation(b)
    ensures Joined(high, b) / 0x40 == high && 0x80 + Joined(high, b) % 0x40 == b
  {
  }

  /** The scalar value that valid text begins with. */
  lemma FirstScalar(s: Bytes) returns (c: Scalar)
    requires s != [] && ValidUtf8(s)
    ensures |ScalarBytes(c)| <= |s| && s == ScalarBytes(c) + s[|ScalarBytes(c)|..]
  {
    hide Joined;
    if s[0] < 0x80 {
      c := s[0];
    } else if s[0] < 0xE0 {
      c := TwoBytes(s[0], s[1]);
    } else if s[0] < 0xF0 {
      c := ThreeBytes(s[0], s[1], s[2]);
    } else {
      c := FourBytes(s[0], s[1], s[2], s[3]);
    }
  }

  lemma TwoBytes(a: u8, b: u8) returns (c: Scalar)
    requires 0xC2 <= a < 0xE0 && Continuation(b)
    ensures ScalarBytes(c) == [a, b]
  {
    JoinedParts(a - 0xC0, b);
    c := Joined(a - 0xC0, b);
  }

  lemma ThreeBytes(a: u8, b: u8, b': u8) returns (c: Scalar)
    requires 0xE0 <= a < 0xF0 && Continuation(b) && Continuation(b')
    requires (a == 0xE0 ==> b >= 0xA0) && (a == 0xED ==> b < 0xA0)
    ensures ScalarBytes(c) == [a, b, b']
  {
    var high := Joined(a - 0xE0, b);
    JoinedParts(a - 0xE0, b);
    JoinedParts(high, b');
    c := Joined(high, b');
  }

  lemma FourBytes(a: u8, b: u8, b': u8, b'': u8) returns (c: Scalar)
    requires 0xF0 <= a < 0xF5 && Continuation(b) && Continuation(b') && Continuation(b'')
    requires (a == 0xF0 ==> b >= 0x90) && (a == 0xF4 ==> b < 0x90)
    ensures ScalarBytes(c) == [a, b, b', b'']
  {
    var top := Joined(a - 0xF0, b);
    var high := Joined(top, b');
    JoinedParts(a - 0xF0, b);
    JoinedParts(top, b');
    JoinedParts(high, b'');
    c := Joined(high, b'');
  }

  lemma {:induction false} TextIsValid(cs: seq<Scalar>)
    ensures ValidUtf8(TextBytes(cs))
  {
    if cs != [] {
      TextIsValid(cs[1..]);
      ScalarThen(cs[0], TextBytes(cs[1..]));
    }
  }

  lemma {:induction false} ValidIsText(s: Bytes) returns (cs: seq<Scalar>)
    requires ValidUtf8(s)
    ensures TextBytes(cs) == s
  {
    cs := [];
    if s != [] {
      var c := FirstScalar(s);
      var rest := s[|ScalarBytes(c)|..];
      ScalarThen(c, rest);
      var ds := ValidIsText(rest);
      cs := [c] + ds;
    }
  }

  /** Text is valid exactly when it is the bytes of some list of scalar values. */
  lemma ValidIffScalars(s: Bytes)
    ensures ValidUtf8(s) <==> exists cs: seq<Scalar> :: TextBytes(cs) == s
  {
    if ValidUtf8(s) {
      var cs := ValidIsText(s);
    }
    if cs: seq<Scalar> :| TextBytes(cs) == s {
      TextIsValid(cs);
    }
  }

  lemma SameScalar(a: Scalar, b: Scalar, x: Bytes, y: Bytes)
    requires ScalarBytes(a) + x == ScalarBytes(b) + y
    ensures a == b && x == y
  {
    hide FirstOf;
    FirstOfScalar(a, x);
    FirstOfScalar(b, y);
    assert (ScalarBytes(a) + x)[|ScalarBytes(a)|..] == x && (ScalarBytes(b) + y)[|ScalarBytes(b)|..] == y;
  }

  /** And of only one. */
  lemma {:induction false} OneList(a: seq<Scalar>, b: seq<Scalar>)
    requires TextBytes(a) == TextBytes(b)
    ensures a == b
  {
    if a != [] && b != [] {
      SameScalar(a[0], b[0], TextBytes(a[1..]), TextBytes(b[1..]));
      OneList(a[1..], b[1..]);
      assert a == [a[0]] + a[1..] && b == [b[0]] + b[1..];
    }
  }

  lemma {:induction false} TextAppends(a: seq<Scalar>, b: seq<Scalar>)
    ensures TextBytes(a + b) == TextBytes(a) + TextBytes(b)
  {
    hide ScalarBytes;
    if a == [] {
      assert a + b == b;
    } else {
      var first, rest := ScalarBytes(a[0]), a[1..];
      TextAppends(rest, b);
      assert (a + b)[0] == a[0] && (a + b)[1..] == rest + b;
      assert first + (TextBytes(rest) + TextBytes(b)) == (first + TextBytes(rest)) + TextBytes(b);
    }
  }

  /** Valid text after valid text is valid. */
  lemma ValidAppends(s: Bytes, t: Bytes)
    requires ValidUtf8(s) && ValidUtf8(t)
    ensures ValidUtf8(s + t)
  {
    var a := ValidIsText(s);
    var b := ValidIsText(t);
    TextAppends(a, b);
    TextIsValid(a + b);
  }
}
