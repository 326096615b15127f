/** The UTF-8 validator of mpack.c:822-918 against the encoding of RFC 3629. */
module Utf8 {
  import opened Bytes

  /** A Unicode scalar value: a code point that is not a surrogate. */
  predicate IsScalar(c: nat) {
    c < 0xD800 || 0xE000 <= c < 0x11_0000
  }

  /** The bytes of one scalar value (RFC 3629, sections 3 and 4). */
  function EncodeScalar(c: nat): (s: seq<byte>)
    requires IsScalar(c)
    ensures 1 <= |s| <= 4
  {
    if c < 0x80 then [c]
    else if c < 0x800 then [0xC0 + c / 64, 0x80 + c % 64]
    else if c < 0x1_0000 then [0xE0 + c / 4096, 0x80 + c / 64 % 64, 0x80 + c % 64]
    else [0xF0 + c / 262144, 0x80 + c / 4096 % 64, 0x80 + c / 64 % 64, 0x80 + c % 64]
  }

  predicate AreScalars(cs: seq<nat>, allowNull: bool) {
    forall i | 0 <= i < |cs| :: IsScalar(cs[i]) && (allowNull || cs[i] != 0)
  }

  function EncodeScalars(cs: seq<nat>, allowNull: bool): seq<byte>
    requires AreScalars(cs, allowNull)
  {
    if cs == [] then [] else EncodeScalar(cs[0]) + EncodeScalars(cs[1..], allowNull)
  }

  /** The bytes are the concatenated encodings of some scalar values (without U+0000 unless allowed). */
  ghost predicate IsText(s: seq<byte>, allowNull: bool) {
    exists cs: seq<nat> :: AreScalars(cs, allowNull) && EncodeScalars(cs, allowNull) == s
  }

  /** A continuation byte, 10xxxxxx. */
  predicate Continues(b: byte) { 0x80 <= b < 0xC0 }

  // The payload bits of a multi-byte encoding, as the C code masks and shifts them.
  function Code2(a: int, b: int): int { a % 32 * 64 + b % 64 }
  function Code3(a: int, b: int, c: int): int { a % 16 * 4096 + b % 64 * 64 + c % 64 }
  function Code4(a: int, b: int, c: int, d: int): int { a % 8 * 262144 + b % 64 * 4096 + c % 64 * 64 + d % 64 }

  /** The marker bits of a byte are masked away, and its payload bits come back. */
  lemma Marked(marker: int, m: int, bits: int)
    requires (marker, m) in {(0x80, 64), (0xC0, 32), (0xE0, 16), (0xF0, 8)} && 0 <= bits < m
    ensures (marker + bits) % m == bits
  {
    if m == 64 {
      assert (0x80 + bits) % 64 == bits;
    } else if m == 32 {
      assert (0xC0 + bits) % 32 == bits;
    } else if m == 16 {
      assert (0xE0 + bits) % 16 == bits;
    } else {
      assert (0xF0 + bits) % 8 == bits;
    }
  }

  /** The four groups of payload bits of a code point. */
  lemma Digits(w: nat, x: nat, y: nat, z: nat)
    requires x < 64 && y < 64 && z < 64
    ensures var c := w * 262144 + x * 4096 + y * 64 + z;
            c % 64 == z && c / 64 % 64 == y && c / 4096 % 64 == x && c / 4096 == w * 64 + x && c / 64 == w * 4096 + x * 64 + y
            && c / 262144 == w
  {
    var c := w * 262144 + x * 4096 + y * 64 + z;
    assert c / 64 == w * 4096 + x * 64 + y;
    assert c / 4096 == w * 64 + x;
  }

  lemma DigitsOf(c: nat) returns (w: nat, x: nat, y: nat, z: nat)
    ensures x < 64 && y < 64 && z < 64 && c == w * 262144 + x * 4096 + y * 64 + z
  {
    var c1 := c / 64;
    var c2 := c1 / 64;
    z, y, x, w := c % 64, c1 % 64, c2 % 64, c2 / 64;
    assert c == c1 * 64 + z && c1 == c2 * 64 + y && c2 == w * 64 + x;
  }

  lemma ScalarBits(c: nat)
    requires IsScalar(c)
    ensures var e := EncodeScalar(c);
            && (0x80 <= c < 0x800 ==> Code2(e[0], e[1]) == c)
            && (0x800 <= c < 0x1_0000 ==> Code3(e[0], e[1], e[2]) == c)
            && (0x1_0000 <= c ==> Code4(e[0], e[1], e[2], e[3]) == c)
  {
    var w, x, y, z := DigitsOf(c);
    Digits(w, x, y, z);
    Marked(0x80, 64, z);
    Marked(0x80, 64, y);
    Marked(0x80, 64, x);
    if 0x80 <= c < 0x800 {
      Marked(0xC0, 32, y);
    } else if 0x800 <= c < 0x1_0000 {
      Marked(0xE0, 16, x);
    } else if 0x1_0000 <= c {
      Marked(0xF0, 8, w);
    }
  }

  /** Conversely, bytes of the right shape whose bits make up a scalar of their length encode it. */
  lemma Recoded2(s: seq<byte>)
    requires |s| >= 2 && 0xC0 <= s[0] <= 0xDF && Continues(s[1]) && Code2(s[0], s[1]) >= 0x80
    ensures Code2(s[0], s[1]) < 0x800 && EncodeScalar(Code2(s[0], s[1])) <= s
  {
    var y, z := s[0] - 0xC0, s[1] - 0x80;
    Marked(0xC0, 32, y);
    Marked(0x80, 64, z);
    Digits(0, 0, y, z);
  }

  lemma Recoded3(s: seq<byte>)
    requires |s| >= 3 && 0xE0 <= s[0] <= 0xEF && Continues(s[1]) && Continues(s[2])
    requires Code3(s[0], s[1], s[2]) >= 0x800 && IsScalar(Code3(s[0], s[1], s[2]))
    ensures Code3(s[0], s[1], s[2]) < 0x1_0000 && EncodeScalar(Code3(s[0], s[1], s[2])) <= s
  {
    var x, y, z := s[0] - 0xE0, s[1] - 0x80, s[2] - 0x80;
    Marked(0xE0, 16, x);
    Marked(0x80, 64, y);
    Marked(0x80, 64, z);
    Digits(0, x, y, z);
  }

  lemma Recoded4(s: seq<byte>)
    requires |s| >= 4 && 0xF0 <= s[0] <= 0xF7 && Continues(s[1]) && Continues(s[2]) && Continues(s[3])
    requires 0x1_0000 <= Code4(s[0], s[1], s[2], s[3]) < 0x11_0000
    ensures EncodeScalar(Code4(s[0], s[1], s[2], s[3])) <= s
  {
    var w, x, y, z := s[0] - 0xF0, s[1] - 0x80, s[2] - 0x80, s[3] - 0x80;
    Marked(0xF0, 8, w);
    Marked(0x80, 64, x);
    Marked(0x80, 64, y);
    Marked(0x80, 64, z);
    Digits(w, x, y, z);
  }

  /** The lead byte tells the length of an encoding, and the bits of its bytes make up the scalar. */
  lemma ScalarShape(c: nat, s: seq<byte>)
    requires IsScalar(c) && EncodeScalar(c) <= s
    ensures s[0] <= 0x7F <==> c < 0x80
    ensures 0xC0 <= s[0] <= 0xDF <==> 0x80 <= c < 0x800
    ensures 0xE0 <= s[0] <= 0xEF <==> 0x800 <= c < 0x1_0000
    ensures 0xF0 <= s[0] <= 0xF7 <==> 0x1_0000 <= c
    ensures c < 0x80 ==> c == s[0]
    ensures 0x80 <= c < 0x800 ==> |s| >= 2 && Continues(s[1]) && c == Code2(s[0], s[1])
    ensures 0x800 <= c < 0x1_0000 ==>
              |s| >= 3 && Continues(s[1]) && Continues(s[2]) && c == Code3(s[0], s[1], s[2])
    ensures 0x1_0000 <= c ==>
              && |s| >= 4 && Continues(s[1]) && Continues(s[2]) && Continues(s[3])
              && c == Code4(s[0], s[1], s[2], s[3])
  {
    ScalarBits(c);
    var e := EncodeScalar(c);
    assert s[0] == e[0];
    if c >= 0x80 { assert s[1] == e[1]; }
    if c >= 0x800 { assert s[2] == e[2]; }
    if c >= 0x1_0000 { assert s[3] == e[3]; }
  }

  /** No encoding is a prefix of another one: whatever follows, the first scalar is determined. */
  lemma FirstScalarUnique(c: nat, d: nat, s: seq<byte>)
    requires IsScalar(c) && IsScalar(d)
    requires EncodeScalar(c) <= s && EncodeScalar(d) <= s
    ensures c == d
  {
    ScalarShape(c, s);
    ScalarShape(d, s);
  }

  /** A text is the encoding of exactly one sequence of scalar values. */
  lemma {:induction false} TextUnique(cs: seq<nat>, ds: seq<nat>, allowNull: bool)
    requires AreScalars(cs, allowNull) && AreScalars(ds, allowNull)
    requires EncodeScalars(cs, allowNull) == EncodeScalars(ds, allowNull)
    ensures cs == ds
  {
    if cs != [] && ds != [] {
      var s := EncodeScalars(cs, allowNull);
      FirstScalarUnique(cs[0], ds[0], s);
      var k := |EncodeScalar(cs[0])|;
      assert EncodeScalars(cs[1..], allowNull) == s[k..] == EncodeScalars(ds[1..], allowNull);
      TextUnique(cs[1..], ds[1..], allowNull);
      assert [cs[0]] + cs[1..] == cs && [ds[0]] + ds[1..] == ds;
    }
  }

  /** Non-empty text starts with an encoded scalar, and the rest is text. */
  lemma TextStarts(s: seq<byte>, allowNull: bool) returns (c: nat)
    requires s != [] && IsText(s, allowNull)
    ensures IsScalar(c) && (allowNull || c != 0)
    ensures EncodeScalar(c) <= s && IsText(s[|EncodeScalar(c)|..], allowNull)
  {
    var cs: seq<nat> :| AreScalars(cs, allowNull) && EncodeScalars(cs, allowNull) == s;
    c := cs[0];
    assert EncodeScalars(cs[1..], allowNull) == s[|EncodeScalar(c)|..];
  }

  /** Stepping over one encoded scalar neither makes nor breaks text. */
  lemma TextStep(s: seq<byte>, c: nat, allowNull: bool)
    requires IsScalar(c) && (allowNull || c != 0) && EncodeScalar(c) <= s
    ensures IsText(s, allowNull) <==> IsText(s[|EncodeScalar(c)|..], allowNull)
  {
    var rest := s[|EncodeScalar(c)|..];
    if IsText(s, allowNull) {
      var d := TextStarts(s, allowNull);
      FirstScalarUnique(c, d, s);
    }
    if IsText(rest, allowNull) {
      var cs: seq<nat> :| AreScalars(cs, allowNull) && EncodeScalars(cs, allowNull) == rest;
      assert ([c] + cs)[1..] == cs;
      assert EncodeScalars([c] + cs, allowNull) == EncodeScalar(c) + rest == s;
    }
  }

  /** mpack_utf8_check_impl: accepts exactly the texts. */
  method Utf8Check(str: seq<byte>, allowNull: bool) returns (ok: bool)
    ensures ok <==> IsText(str, allowNull)
  {
    var s := str;
    while s != []
      invariant IsText(str, allowNull) <==> IsText(s, allowNull)
      decreases |s|
    {
      var lead := s[0];
      if IsText(s, allowNull) {
        var c := TextStarts(s, allowNull);
        ScalarShape(c, s);
      }
      if !allowNull && lead == 0 {
        return false;
      }
      if lead <= 0x7F {
        TextStep(s, lead, allowNull);
        s := s[1..];
      } else if 0xC0 <= lead <= 0xDF {
        if |s| < 2 || !Continues(s[1]) {
          return false;
        }
        var z := Code2(lead, s[1]);
        if z < 0x80 {
          return false;
        }
        Recoded2(s);
        TextStep(s, z, allowNull);
        s := s[2..];
      } else if 0xE0 <= lead <= 0xEF {
        if |s| < 3 || !Continues(s[1]) || !Continues(s[2]) {
          return false;
        }
        var z := Code3(lead, s[1], s[2]);
        if z < 0x800 || 0xD800 <= z <= 0xDFFF {
          return false;
        }
        Recoded3(s);
        TextStep(s, z, allowNull);
        s := s[3..];
      } else if 0xF0 <= lead <= 0xF7 {
        if |s| < 4 || !Continues(s[1]) || !Continues(s[2]) || !Continues(s[3]) {
          return false;
        }
        var z := Code4(lead, s[1], s[2], s[3]);
        if z < 0x1_0000 || z > 0x10_FFFF {
          return false;
        }
        Recoded4(s);
        TextStep(s, z, allowNull);
        s := s[4..];
      } else {
        return false;
      }
    }
    ok := true;
    assert AreScalars([], allowNull) && EncodeScalars([], allowNull) == [];
  }
}
