/**
 The base64url encoder written by hand in the IAM service's JWKS endpoint, and
 the unpadded decoder of section 5 of RFC 4648 that reads its output back.
 */
module Base64Url {
  import opened Bytes
  import opened Collections
  import opened Wrappers

  const UPPER := "ABCDEFGHIJKLMNOPQRSTUVWXYZ"
  const LOWER := "abcdefghijklmnopqrstuvwxyz"
  const DIGITS_AND_SIGNS := "0123456789-_"
  const CHARS: string := UPPER + LOWER + DIGITS_AND_SIGNS

  /** The character of a six-bit value. */
  function Symbol(x: bv8): char
    requires x < 64
  {
    CHARS[x as int]
  }

  /**
   The value of a character in the alphabet of table 2 of RFC 4648, by ranges of characters;
   None for a character outside it.
   */
  function Value(c: char): (r: Option<nat>)
    ensures r.Some? ==> r.value < 64
  {
    if 'A' <= c <= 'Z' then Some(c as int - 'A' as int)
    else if 'a' <= c <= 'z' then Some(c as int - 'a' as int + 26)
    else if '0' <= c <= '9' then Some(c as int - '0' as int + 52)
    else if c == '-' then Some(62)
    else if c == '_' then Some(63)
    else None
  }

  function Sextet(c: char): (r: Option<bv8>)
    ensures r.Some? ==> r.value < 64
  {
    match Value(c)
    case Some(k) =>
      SmallByte(k);
      Some(k as bv8)
    case None => None
  }

  lemma SmallByte(k: nat)
    requires k < 64
    ensures k as bv8 < 64 && (k as bv8) as int == k
  {
    ByteOfInt(k);
  }

  lemma UpperInOrder()
    ensures |UPPER| == 26 && forall k :: 0 <= k < 26 ==> UPPER[k] == 'A' + k as char
  {
  }

  lemma LowerInOrder()
    ensures |LOWER| == 26 && forall k :: 0 <= k < 26 ==> LOWER[k] == 'a' + k as char
  {
  }

  lemma DigitsInOrder()
    ensures |DIGITS_AND_SIGNS| == 12 && forall k :: 0 <= k < 10 ==> DIGITS_AND_SIGNS[k] == '0' + k as char
  {
  }

  /** The encoder's table of characters agrees with the ranges. */
  lemma CharIsInItsRange(k: nat)
    requires k < 64
    ensures CHARS[k] == if k < 26 then 'A' + k as char else if k < 52 then 'a' + (k - 26) as char
                        else if k < 62 then '0' + (k - 52) as char else if k == 62 then '-' else '_'
  {
    UpperInOrder();
    LowerInOrder();
    DigitsInOrder();
  }

  lemma ValueOfChar(k: nat)
    requires k < 64
    ensures Value(CHARS[k]) == Some(k)
  {
    CharIsInItsRange(k);
  }

  lemma CharOfValue(c: char)
    requires Value(c).Some?
    ensures CHARS[Value(c).value] == c
  {
    CharIsInItsRange(Value(c).value);
  }

  lemma SextetOfSymbol(x: bv8)
    requires x < 64
    ensures Sextet(Symbol(x)) == Some(x)
  {
    ValueOfChar(x as int);
    IntOfByte(x);
  }

  lemma SymbolOfSextet(c: char)
    requires Sextet(c).Some?
    ensures Symbol(Sextet(c).value) == c
  {
    CharOfValue(c);
    SmallByte(Value(c).value);
  }

  lemma SymbolsDiffer(x: bv8, y: bv8)
    requires x < 64 && y < 64 && Symbol(x) == Symbol(y)
    ensures x == y
  {
    SextetOfSymbol(x);
    SextetOfSymbol(y);
  }

  // The four six-bit values of three bytes, and the three bytes of four six-bit values.
  function First6(b0: bv8): (x: bv8) ensures x < 64 { b0 >> 2 }
  function Second6(b0: bv8, b1: bv8): (x: bv8) ensures x < 64 { ((b0 & 0x3) << 4) | (b1 >> 4) }
  function Third6(b1: bv8, b2: bv8): (x: bv8) ensures x < 64 { ((b1 & 0xf) << 2) | (b2 >> 6) }
  function Fourth6(b2: bv8): (x: bv8) ensures x < 64 { b2 & 0x3f }
  function First8(x0: bv8, x1: bv8): bv8 { (x0 << 2) | (x1 >> 4) }
  function Second8(x1: bv8, x2: bv8): bv8 { (x1 << 4) | (x2 >> 2) }
  function Third8(x2: bv8, x3: bv8): bv8 { (x2 << 6) | x3 }

  lemma BytesOfSextets(b0: bv8, b1: bv8, b2: bv8)
    ensures First8(First6(b0), Second6(b0, b1)) == b0
    ensures Second8(Second6(b0, b1), Third6(b1, b2)) == b1
    ensures Third8(Third6(b1, b2), Fourth6(b2)) == b2
  {
  }

  lemma SextetsOfBytes(x0: bv8, x1: bv8, x2: bv8, x3: bv8)
    requires x0 < 64 && x1 < 64 && x2 < 64 && x3 < 64
    ensures var b0, b1, b2 := First8(x0, x1), Second8(x1, x2), Third8(x2, x3);
      && First6(b0) == x0
      && (Second6(b0, 0) == x1 <==> x1 & 0xf == 0)
      && Second6(b0, b1) == x1
      && (Third6(b1, 0) == x2 <==> x2 & 0x3 == 0)
      && Third6(b1, b2) == x2
      && Fourth6(b2) == x3
  {
  }

  /** What the encoder appends for a group of one to three bytes. */
  function Group(b: seq<bv8>): (s: string)
    requires 1 <= |b| <= 3
    ensures |s| == |b| + 1
  {
    var b0 := b[0];
    var b1 := if 1 < |b| then b[1] else 0;
    var b2 := if 2 < |b| then b[2] else 0;
    [Symbol(First6(b0)), Symbol(Second6(b0, b1))]
    + (if 1 < |b| then [Symbol(Third6(b1, b2))] else [])
    + (if 2 < |b| then [Symbol(Fourth6(b2))] else [])
  }

  function Encode(b: seq<bv8>): string {
    if b == [] then []
    else if |b| <= 3 then Group(b)
    else Group(b[..3]) + Encode(b[3..])
  }

  /** What the encoder's loop still has to append when it stands at index i. */
  ghost function EncodeFrom(b: seq<bv8>, i: nat): string
    decreases |b| - i
  {
    if i >= |b| then [] else Group(GroupAt(b, i)) + EncodeFrom(b, i + 3)
  }

  ghost function GroupAt(b: seq<bv8>, i: nat): (g: seq<bv8>)
    requires i < |b|
    ensures 1 <= |g| <= 3
  {
    if i + 3 <= |b| then b[i..i + 3] else b[i..]
  }

  lemma {:induction false} EncodeFromIsEncode(b: seq<bv8>, i: nat)
    requires i <= |b|
    ensures EncodeFrom(b, i) == Encode(b[i..])
    decreases |b| - i
  {
    if i + 3 < |b| {
      EncodeFromIsEncode(b, i + 3);
      assert b[i..][..3] == GroupAt(b, i) && b[i..][3..] == b[i + 3..];
    } else if i < |b| {
      assert GroupAt(b, i) == b[i..];
    }
  }

  /** The encoder's loop: one group of output per three bytes of input. */
  method Base64URLEncode(b: seq<bv8>) returns (result: string)
    ensures result == Encode(b)
  {
    result := [];
    var i := 0;
    while i < |b|
      invariant 0 <= i
      invariant result + EncodeFrom(b, i) == EncodeFrom(b, 0)
      decreases |b| - i
    {
      ghost var before := result;
      var b0, b1, b2 := b[i], 0, 0;
      if i + 1 < |b| {
        b1 := b[i + 1];
      }
      if i + 2 < |b| {
        b2 := b[i + 2];
      }
      result := result + [Symbol(First6(b0))];
      result := result + [Symbol(Second6(b0, b1))];
      if i + 1 < |b| {
        result := result + [Symbol(Third6(b1, b2))];
      }
      if i + 2 < |b| {
        result := result + [Symbol(Fourth6(b2))];
      }
      EncodeStep(b, i, before, b1, b2);
      i := i + 3;
    }
    EncodeFromIsEncode(b, 0);
    assert b[0..] == b;
  }

  /** The text before, and what one turn of the loop appends to it for n bytes. */
  ghost function Appended(before: string, n: nat, b0: bv8, b1: bv8, b2: bv8): string {
    var two := before + [Symbol(First6(b0))] + [Symbol(Second6(b0, b1))];
    var three := if 1 < n then two + [Symbol(Third6(b1, b2))] else two;
    if 2 < n then three + [Symbol(Fourth6(b2))] else three
  }

  lemma EncodeStep(b: seq<bv8>, i: nat, before: string, b1: bv8, b2: bv8)
    requires i < |b| && before + EncodeFrom(b, i) == EncodeFrom(b, 0)
    requires b1 == (if i + 1 < |b| then b[i + 1] else 0) && b2 == (if i + 2 < |b| then b[i + 2] else 0)
    ensures Appended(before, |b| - i, b[i], b1, b2) + EncodeFrom(b, i + 3) == EncodeFrom(b, 0)
  {
    var group := GroupAt(b, i);
    AppendedIsGroup(before, |b| - i, group, b[i], b1, b2);
    Associative(before, Group(group), EncodeFrom(b, i + 3));
  }

  lemma AppendedIsGroup(before: string, n: nat, group: seq<bv8>, b0: bv8, b1: bv8, b2: bv8)
    requires 1 <= |group| <= 3 && (n == |group| || |group| == 3 <= n)
    requires b0 == group[0]
    requires b1 == (if 1 < |group| then group[1] else 0) && b2 == (if 2 < |group| then group[2] else 0)
    ensures Appended(before, n, b0, b1, b2) == before + Group(group)
  {
  }

  /** Decodes one group of two to four characters into one to three bytes. */
  function DecodeGroup(s: string): (r: Option<seq<bv8>>)
    requires 2 <= |s| <= 4
    ensures r.Some? ==> |r.value| == |s| - 1
  {
    match (Sextet(s[0]), Sextet(s[1]))
    case (Some(x0), Some(x1)) =>
      if |s| == 2 then Some([First8(x0, x1)])
      else (
        match Sextet(s[2])
        case None => None
        case Some(x2) =>
          if |s| == 3 then Some([First8(x0, x1), Second8(x1, x2)])
          else (
            match Sextet(s[3])
            case None => None
            case Some(x3) => Some([First8(x0, x1), Second8(x1, x2), Third8(x2, x3)])
          )
      )
    case _ => None
  }

  /** RFC 4648, section 5, without padding: a lone trailing character is an error. */
  function Decode(s: string): Option<seq<bv8>> {
    if s == [] then Some([])
    else if |s| == 1 then None
    else if |s| <= 4 then DecodeGroup(s)
    else
      match (DecodeGroup(s[..4]), Decode(s[4..]))
      case (Some(b), Some(rest)) => Some(b + rest)
      case _ => None
  }

  /** The bits of the last character that no byte receives. */
  ghost predicate TrailingBitsZero(s: string)
    requires Decode(s).Some?
  {
    if s == [] then true
    else if |s| == 2 then Sextet(s[1]).value & 0xf == 0
    else if |s| == 3 then Sextet(s[2]).value & 0x3 == 0
    else |s| == 4 || TrailingBitsZero(s[4..])
  }

  lemma GroupRoundTrip(b: seq<bv8>)
    requires 1 <= |b| <= 3
    ensures DecodeGroup(Group(b)) == Some(b)
  {
    var b0 := b[0];
    var b1 := if 1 < |b| then b[1] else 0;
    var b2 := if 2 < |b| then b[2] else 0;
    SextetOfSymbol(First6(b0));
    SextetOfSymbol(Second6(b0, b1));
    SextetOfSymbol(Third6(b1, b2));
    SextetOfSymbol(Fourth6(b2));
    BytesOfSextets(b0, b1, b2);
    var s := Group(b);
    DecodesTo(s, First6(b0), Second6(b0, b1), Third6(b1, b2), Fourth6(b2));
    assert b == if |b| == 1 then [b0] else if |b| == 2 then [b0, b1] else [b0, b1, b2];
  }

  /** Decoding a group whose characters have these values. */
  lemma DecodesTo(s: string, x0: bv8, x1: bv8, x2: bv8, x3: bv8)
    requires 2 <= |s| <= 4 && Sextet(s[0]) == Some(x0) && Sextet(s[1]) == Some(x1)
    requires |s| > 2 ==> Sextet(s[2]) == Some(x2)
    requires |s| > 3 ==> Sextet(s[3]) == Some(x3)
    ensures DecodeGroup(s) == Some(
              if |s| == 2 then [First8(x0, x1)]
              else if |s| == 3 then [First8(x0, x1), Second8(x1, x2)]
              else [First8(x0, x1), Second8(x1, x2), Third8(x2, x3)])
  {
  }

  /** Decoding the encoder's output gives the input back, for every byte sequence. */
  lemma {:induction false} DecodeOfEncode(b: seq<bv8>)
    ensures Decode(Encode(b)) == Some(b)
    ensures |Encode(b)| == (4 * |b| + 2) / 3
  {
    if b == [] {
    } else if |b| <= 3 {
      GroupRoundTrip(b);
    } else {
      var group, rest := b[..3], b[3..];
      GroupRoundTrip(group);
      DecodeOfEncode(rest);
      var s := Encode(b);
      assert s[..4] == Group(group) && s[4..] == Encode(rest);
      assert group + rest == b;
    }
  }

  /** The group of the bytes that four values spell, given as values; s has their characters. */
  lemma GroupOfValues(s: string, x0: bv8, x1: bv8, x2: bv8, x3: bv8)
    requires x0 < 64 && x1 < 64 && x2 < 64 && x3 < 64
    requires 2 <= |s| <= 4 && s[0] == Symbol(x0) && s[1] == Symbol(x1)
    requires |s| > 2 ==> s[2] == Symbol(x2)
    requires |s| > 3 ==> s[3] == Symbol(x3)
    ensures |s| == 2 ==> (Group([First8(x0, x1)]) == s <==> x1 & 0xf == 0)
    ensures |s| == 3 ==> (Group([First8(x0, x1), Second8(x1, x2)]) == s <==> x2 & 0x3 == 0)
    ensures |s| == 4 ==> Group([First8(x0, x1), Second8(x1, x2), Third8(x2, x3)]) == s
  {
    SextetsOfBytes(x0, x1, x2, x3);
    if |s| == 2 {
      var y := Second6(First8(x0, x1), 0);
      if Symbol(y) == Symbol(x1) {
        SymbolsDiffer(y, x1);
      }
      assert Group([First8(x0, x1)]) == [Symbol(x0), Symbol(y)];
      assert s == [Symbol(x0), Symbol(x1)];
    } else if |s| == 3 {
      var y := Third6(Second8(x1, x2), 0);
      if Symbol(y) == Symbol(x2) {
        SymbolsDiffer(y, x2);
      }
      assert Group([First8(x0, x1), Second8(x1, x2)]) == [Symbol(x0), Symbol(x1), Symbol(y)];
      assert s == [Symbol(x0), Symbol(x1), Symbol(x2)];
    }
  }

  lemma GroupOfDecodeGroup(s: string)
    requires 2 <= |s| <= 4 && DecodeGroup(s).Some?
    ensures Group(DecodeGroup(s).value) == s <==>
              (|s| == 2 ==> Sextet(s[1]).value & 0xf == 0) && (|s| == 3 ==> Sextet(s[2]).value & 0x3 == 0)
  {
    var x0, x1 := Sextet(s[0]).value, Sextet(s[1]).value;
    var x2 := if |s| > 2 then Sextet(s[2]).value else 0;
    var x3 := if |s| > 3 then Sextet(s[3]).value else 0;
    SymbolOfSextet(s[0]);
    SymbolOfSextet(s[1]);
    if |s| > 2 {
      SymbolOfSextet(s[2]);
    }
    if |s| > 3 {
      SymbolOfSextet(s[3]);
    }
    DecodesTo(s, x0, x1, x2, x3);
    GroupOfValues(s, x0, x1, x2, x3);
  }

  /**
   The decoder accepts more texts than the encoder writes: re-encoding gives the
   text back exactly when the unused bits of its last character are zero.
   */
  lemma {:induction false} EncodeOfDecode(s: string)
    requires Decode(s).Some?
    ensures Encode(Decode(s).value) == s <==> TrailingBitsZero(s)
  {
    if s == [] {
    } else if |s| <= 4 {
      GroupOfDecodeGroup(s);
    } else {
      var head, tail := s[..4], s[4..];
      GroupOfDecodeGroup(head);
      EncodeOfDecode(tail);
      DecodeIsNotEmpty(tail);
      var b, rest := DecodeGroup(head).value, Decode(tail).value;
      assert (b + rest)[..3] == b && (b + rest)[3..] == rest;
      assert Encode(b + rest) == head + Encode(rest);
      assert s == head + tail;
      assert (head + Encode(rest))[4..] == Encode(rest);
    }
  }

  lemma DecodeIsNotEmpty(s: string)
    requires s != [] && Decode(s).Some?
    ensures |Decode(s).value| >= 1
  {
  }
}
