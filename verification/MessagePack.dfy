/** The MessagePack grammar of mpack_parse_tag (mpack.c:3347-3698), with ext types disabled, and a
    recursive reference decoder for complete objects. */
module MessagePack {
  import opened Bytes

  datatype Tag =
    | Nil
    | Bool(b: bool)
    | UInt(u: nat)
    | Int(i: int)
    | Float(bits: nat)
    | Double(bits: nat)
    | Str(len: nat)
    | Bin(len: nat)
    | Array(n: nat)
    | Map(n: nat)
  {
    /** Raw bytes that follow the tag. */
    function Payload(): nat {
      match this
      case Str(len) => len
      case Bin(len) => len
      case _ => 0
    }

    /** Objects that follow the tag: a map of n pairs holds 2n. */
    function Children(): nat {
      match this
      case Array(n) => n
      case Map(n) => 2 * n
      case _ => 0
    }

    predicate IsInteger() { UInt? || Int? }

    function Number(): int
      requires IsInteger()
    {
      if UInt? then u else i
    }
  }

  /** An object: its tag, the bytes of a str or bin, and the elements of an array (or the
      alternating keys and values of a map). */
  datatype Value = Value(tag: Tag, data: seq<byte>, items: seq<Value>)

  /** Bytes in the tag that starts with `lead`; 0 for the reserved byte and the ext family. */
  function TagSize(lead: byte): (k: nat)
    ensures k <= 9
  {
    if lead < 0xc1 || lead == 0xc2 || lead == 0xc3 || lead >= 0xe0 then 1
    else if lead == 0xc4 || lead == 0xcc || lead == 0xd0 || lead == 0xd9 then 2
    else if lead == 0xc5 || lead == 0xcd || lead == 0xd1 || lead == 0xda || lead == 0xdc || lead == 0xde then 3
    else if lead == 0xc6 || lead == 0xca || lead == 0xce || lead == 0xd2 || lead == 0xdb || lead == 0xdd || lead == 0xdf then 5
    else if lead == 0xcb || lead == 0xcf || lead == 0xd3 then 9
    else 0
  }

  /** The tag with lead byte `lead` whose remaining TagSize(lead) - 1 bytes load as `arg`. */
  function TagOf(lead: byte, arg: nat): Tag
    requires TagSize(lead) > 0
  {
    if lead <= 0x7f then UInt(lead)
    else if lead <= 0x8f then Map(lead - 0x80)
    else if lead <= 0x9f then Array(lead - 0x90)
    else if lead <= 0xbf then Str(lead - 0xa0)
    else if lead >= 0xe0 then Int(lead - 256)
    else if lead == 0xc0 then Nil
    else if lead <= 0xc3 then Bool(lead == 0xc3)
    else if lead <= 0xc6 then Bin(arg)
    else if lead == 0xca then Float(arg)
    else if lead == 0xcb then Double(arg)
    else if lead <= 0xcf then UInt(arg)
    else if lead <= 0xd3 then Int(Signed(TagSize(lead) - 1, arg))
    else if lead <= 0xdb then Str(arg)
    else if lead <= 0xdd then Array(arg)
    else Map(arg)
  }

  /** The tag at position p, when its bytes are all there. */
  predicate HasTag(s: seq<byte>, p: nat) {
    p < |s| && TagSize(s[p]) > 0 && p + TagSize(s[p]) <= |s|
  }

  function TagAt(s: seq<byte>, p: nat): Tag
    requires HasTag(s, p)
  {
    TagOf(s[p], Load(s[p + 1..p + TagSize(s[p])]))
  }

  /** Where the elements of the object at p start: behind its tag and its raw bytes. */
  function BodyEnd(s: seq<byte>, p: nat): (q: nat)
    requires HasTag(s, p)
    ensures q > p
  {
    p + TagSize(s[p]) + TagAt(s, p).Payload()
  }

  /** The object at p, given its elements. */
  function ObjectAt(s: seq<byte>, p: nat, items: seq<Value>): Value
    requires HasTag(s, p) && BodyEnd(s, p) <= |s|
  {
    Value(TagAt(s, p), s[p + TagSize(s[p])..BodyEnd(s, p)], items)
  }

  /** Decodes one complete object at p: the object and the position after it. */
  function Decode(s: seq<byte>, p: nat): (r: Option<(Value, nat)>)
    requires p <= |s|
    ensures r.Some? ==> p < r.value.1 <= |s|
    decreases |s| - p, 0, 0
  {
    if !HasTag(s, p) || BodyEnd(s, p) > |s| then None else
    match DecodeMany(s, BodyEnd(s, p), TagAt(s, p).Children())
    case None => None
    case Some((items, end)) => Some((ObjectAt(s, p, items), end))
  }

  /** Decodes n consecutive objects. */
  function DecodeMany(s: seq<byte>, p: nat, n: nat): (r: Option<(seq<Value>, nat)>)
    requires p <= |s|
    ensures r.Some? ==> |r.value.0| == n && p + n <= r.value.1 <= |s|
    decreases |s| - p, 1, n
  {
    if n == 0 then Some(([], p)) else
    match Decode(s, p)
    case None => None
    case Some((v, q)) =>
      match DecodeMany(s, q, n - 1)
      case None => None
      case Some((vs, end)) => Some(([v] + vs, end))
  }

  /** Reading m objects and then n more is reading m + n objects. */
  lemma {:induction false} DecodeManySplit(s: seq<byte>, p: nat, m: nat, n: nat)
    requires p <= |s|
    ensures DecodeMany(s, p, m).None? ==> DecodeMany(s, p, m + n).None?
    ensures DecodeMany(s, p, m).Some? ==>
              var (vs, q) := DecodeMany(s, p, m).value;
              var rest := DecodeMany(s, q, n);
              DecodeMany(s, p, m + n) == if rest.None? then None else Some((vs + rest.value.0, rest.value.1))
    decreases |s| - p, m
  {
    hide HasTag, TagAt, BodyEnd, ObjectAt;
    if m == 0 {
      var rest := DecodeMany(s, p, n);
      assert rest.Some? ==> [] + rest.value.0 == rest.value.0;
    } else if Decode(s, p).Some? {
      var (v, q) := Decode(s, p).value;
      DecodeManySplit(s, q, m - 1, n);
      assert m + n - 1 == m - 1 + n;
      if DecodeMany(s, q, m - 1).Some? {
        var (vs, q') := DecodeMany(s, q, m - 1).value;
        if DecodeMany(s, q', n).Some? {
          var rest := DecodeMany(s, q', n).value.0;
          assert [v] + (vs + rest) == ([v] + vs) + rest;
        }
      }
    }
  }

  /** One step of reading n pending objects: after a tag, its payload is skipped and its children
      join the pending objects in front. This is how a parser without recursion must proceed. */
  lemma DecodeUnfold(s: seq<byte>, p: nat, n: nat)
    requires p <= |s| && n > 0
    ensures !HasTag(s, p) || BodyEnd(s, p) > |s| ==> DecodeMany(s, p, n).None?
    ensures HasTag(s, p) && BodyEnd(s, p) <= |s| ==>
              var c := TagAt(s, p).Children();
              var rest := DecodeMany(s, BodyEnd(s, p), c + (n - 1));
              && (rest.None? <==> DecodeMany(s, p, n).None?)
              && (rest.Some? ==>
                    DecodeMany(s, p, n)
                    == Some(([ObjectAt(s, p, rest.value.0[..c])] + rest.value.0[c..], rest.value.1)))
  {
    hide TagSize, TagOf, Load;
    if HasTag(s, p) && BodyEnd(s, p) <= |s| {
      var c := TagAt(s, p).Children();
      var q := BodyEnd(s, p);
      DecodeManySplit(s, q, c, n - 1);
      if DecodeMany(s, q, c).Some? {
        var (items, q') := DecodeMany(s, q, c).value;
        if DecodeMany(s, q', n - 1).Some? {
          var others := DecodeMany(s, q', n - 1).value.0;
          assert (items + others)[..c] == items && (items + others)[c..] == others;
        }
      }
    }
  }

  lemma TagPrefix(s: seq<byte>, t: seq<byte>, p: nat)
    requires |s| <= |t| && s == t[..|s|]
    ensures HasTag(s, p) <==> HasTag(t, p) && p + TagSize(t[p]) <= |s|
    ensures HasTag(s, p) ==> TagAt(s, p) == TagAt(t, p) && BodyEnd(s, p) == BodyEnd(t, p)
    ensures HasTag(t, p) && !HasTag(s, p) ==> BodyEnd(t, p) > |s|
    ensures HasTag(s, p) && BodyEnd(s, p) <= |s| ==>
              forall items :: ObjectAt(s, p, items) == ObjectAt(t, p, items)
  {
    hide TagSize, TagOf, Load;
    if HasTag(s, p) {
      assert s[p + 1..p + TagSize(s[p])] == t[p + 1..p + TagSize(t[p])];
      if BodyEnd(s, p) <= |s| {
        assert s[p + TagSize(s[p])..BodyEnd(s, p)] == t[p + TagSize(s[p])..BodyEnd(s, p)];
      }
    }
  }

  /** Decoding looks only at the bytes of the objects it returns. */
  lemma {:induction false} DecodeManyPrefix(s: seq<byte>, t: seq<byte>, p: nat, n: nat)
    requires p <= |s| <= |t| && s == t[..|s|]
    ensures DecodeMany(s, p, n).Some? ==> DecodeMany(t, p, n) == DecodeMany(s, p, n)
    ensures DecodeMany(t, p, n).Some? && DecodeMany(t, p, n).value.1 <= |s| ==> DecodeMany(s, p, n) == DecodeMany(t, p, n)
    decreases |s| - p
  {
    hide HasTag, TagAt, BodyEnd, ObjectAt;
    if n > 0 {
      DecodeUnfold(s, p, n);
      DecodeUnfold(t, p, n);
      TagPrefix(s, t, p);
      if HasTag(s, p) && BodyEnd(s, p) <= |s| {
        DecodeManyPrefix(s, t, BodyEnd(s, p), TagAt(s, p).Children() + (n - 1));
      }
    }
  }

  lemma DecodePrefix(s: seq<byte>, t: seq<byte>, p: nat)
    requires p <= |s| <= |t| && s == t[..|s|]
    ensures Decode(s, p).Some? ==> Decode(t, p) == Decode(s, p)
    ensures Decode(t, p).Some? && Decode(t, p).value.1 <= |s| ==> Decode(s, p) == Decode(t, p)
  {
    DecodeManyPrefix(s, t, p, 1);
    DecodeAsMany(s, p);
    DecodeAsMany(t, p);
  }

  lemma DecodeAsMany(s: seq<byte>, p: nat)
    requires p <= |s|
    ensures DecodeMany(s, p, 1) == match Decode(s, p) case None => None case Some((v, q)) => Some(([v], q))
  {
    if Decode(s, p).Some? {
      var (v, q) := Decode(s, p).value;
      assert DecodeMany(s, q, 0) == Some(([], q)) && [v] + [] == [v];
    }
  }
}
