/** The loops of `encode` and `decode` with their two small arrays. */
module Base64Loops {
  import opened Base64

  /** `char_array_4` from `char_array_3`. */
  method Split(three: array<bv8>, four: array<bv8>)
    requires three.Length == 3 && four.Length == 4 && three != four
    modifies four
    ensures forall k :: 0 <= k < 4 ==> four[k] == Sextet(three[0], three[1], three[2], k)
  {
    var a, b, c := three[0], three[1], three[2];
    four[0] := (a & 0xfc) >> 2;
    four[1] := ((a & 0x03) << 4) + ((b & 0xf0) >> 4);
    four[2] := ((b & 0x0f) << 2) + ((c & 0xc0) >> 6);
    four[3] := c & 0x3f;
  }

  /** `char_array_3` from `char_array_4`. */
  method Join(four: array<bv8>, three: array<bv8>)
    requires three.Length == 3 && four.Length == 4 && three != four
    modifies three
    ensures forall k :: 0 <= k < 3 ==> three[k] == Octet(four[0], four[1], four[2], four[3], k)
  {
    var p, q, r, s := four[0], four[1], four[2], four[3];
    three[0] := (p << 2) + ((q & 0x30) >> 4);
    three[1] := ((q & 0x0f) << 4) + ((r & 0x3c) >> 2);
    three[2] := ((r & 0x03) << 6) + s;
  }

  /** The first `n` characters of the group in `three`. */
  method Characters(three: array<bv8>, n: nat) returns (ret: Text)
    requires three.Length == 3 && n <= 4
    ensures ret == Quad(three[0], three[1], three[2])[..n]
  {
    hide Char, Sextet;
    var four := new bv8[4](_ => 0);
    Split(three, four);
    ret := [];
    for j := 0 to n
      invariant ret == Quad(three[0], three[1], three[2])[..j]
      invariant forall k :: 0 <= k < 4 ==> four[k] == Sextet(three[0], three[1], three[2], k)
    {
      assert j == 0 || j == 1 || j == 2 || j == 3;
      ret := ret + [Char(four[j])];
    }
  }

  /** The first `n` bytes of the group of characters in `four`. */
  method Octets(four: array<bv8>, n: nat) returns (ret: Text)
    requires four.Length == 4 && n <= 3
    modifies four
    ensures ret == Triple(old(four[0]), old(four[1]), old(four[2]), old(four[3]))[..n]
  {
    hide Find, Octet;
    for j := 0 to 4
      invariant forall k :: 0 <= k < j ==> four[k] == Find(old(four[k]))
      invariant forall k :: j <= k < 4 ==> four[k] == old(four[k])
    {
      four[j] := Find(four[j]);
    }
    var three := new bv8[3](_ => 0);
    Join(four, three);
    ret := three[..n];
    assert three[..] == Triple(old(four[0]), old(four[1]), old(four[2]), old(four[3]));
  }

  lemma EncodeGroup(group: Text, rest: Text)
    requires |group| == 3
    ensures Encode(group + rest) == Quad(group[0], group[1], group[2]) + Encode(rest)
  {
    assert (group + rest)[3..] == rest;
  }

  method EncodeBytes(bytes: Text) returns (ret: Text)
    ensures ret == Encode(bytes)
    ensures Decode(ret) == bytes
  {
    hide Quad, Encode, Decode, At, Padding;
    RoundTrip(bytes);
    var three := new bv8[3](_ => 0);
    var i, next := 0, 0;
    ret := [];
    assert [] + bytes == bytes;
    while next != |bytes|
      invariant i < 3 && next <= |bytes|
      invariant ret + Encode(three[..i] + bytes[next..]) == Encode(bytes)
      decreases |bytes| - next
    {
      ghost var held := three[..i];
      OneMore(held, bytes, next);
      three[i] := bytes[next];
      i := i + 1;
      next := next + 1;
      assert three[..i] == held + [bytes[next - 1]];
      if i == 3 {
        ghost var rest := bytes[next..];
        EncodeGroup(three[..3], rest);
        var chars := Characters(three, 4);
        Shift(ret, chars, Encode(rest));
        ret := ret + chars;
        i := 0;
        assert three[..0] + rest == rest;
      }
    }
    assert three[..i] + bytes[next..] == three[..i];
    if i != 0 {
      var last := LastGroup(three, i);
      ret := ret + last;
    } else {
      EncodeRest([]);
    }
  }

  /** The last one or two bytes, filled up with zeros, and the padding. */
  method LastGroup(three: array<bv8>, i: nat) returns (ret: Text)
    requires three.Length == 3 && 0 < i < 3
    modifies three
    ensures ret == Encode(old(three[..i]))
  {
    hide Quad, Encode;
    ghost var rest := three[..i];
    var j := i;
    while j < 3
      invariant i <= j <= 3 && three[..i] == rest
      invariant forall k :: i <= k < j ==> three[k] == 0
    {
      three[j] := 0;
      j := j + 1;
    }
    ret := Characters(three, i + 1);
    EncodeRest(rest);
    ghost var all := ret;
    var pad := i;
    while pad < 3
      invariant i <= pad <= 3 && ret == all + Padding(i)[..pad - i]
    {
      ret := ret + [PAD];
      pad := pad + 1;
    }
    assert Padding(i)[..3 - i] == Padding(i);
  }

  /** What is left at the end. */
  lemma EncodeRest(rest: Text)
    requires |rest| < 3
    ensures Encode(rest) ==
              if rest == [] then []
              else Quad(rest[0], At(rest, 1), 0)[..|rest| + 1] + Padding(|rest|)
  {
    hide Quad;
  }

  lemma DecodeGroup(group: Text, rest: Text)
    requires |group| == 4
    ensures DecodeAll(group + rest) == Triple(group[0], group[1], group[2], group[3]) + DecodeAll(rest)
  {
    assert (group + rest)[4..] == rest;
  }

  /** Any text: decoding stops at the first character outside the alphabet, and one left-over character is
      dropped. */
  method DecodeText(text: Text) returns (ret: Text)
    ensures ret == Decode(text)
  {
    hide Triple, Decode, DecodeAll, Leading, IsBase64;
    DecodeIs(text);
    var four := new bv8[4](_ => 0);
    var i, at := 0, 0;
    ret := [];
    assert [] + Leading(text) == Leading(text) && text[0..] == text;
    while at != |text| && text[at] != PAD && IsBase64(text[at])
      invariant i < 4 && at <= |text|
      invariant ret + DecodeAll(four[..i] + Leading(text[at..])) == Decode(text)
      decreases |text| - at
    {
      LeadingGoesOn(text, at);
      ghost var held, rest := four[..i], Leading(text[at + 1..]);
      Regroup(held, text[at], rest);
      four[i] := text[at];
      at := at + 1;
      i := i + 1;
      assert four[..i] == held + [text[at - 1]];
      if i == 4 {
        DecodeGroup(four[..4], rest);
        var bytes := Octets(four, 3);
        Shift(ret, bytes, DecodeAll(rest));
        ret := ret + bytes;
        i := 0;
        assert four[..0] + rest == rest;
      }
    }
    LeadingEnds(text, at);
    assert four[..i] + [] == four[..i];
    if i != 0 {
      var last := LastBytes(four, i);
      ret := ret + last;
    } else {
      DecodeRest([]);
    }
  }

  /** What one, two or three left-over characters still give. */
  method LastBytes(four: array<bv8>, i: nat) returns (ret: Text)
    requires four.Length == 4 && 0 < i < 4
    modifies four
    ensures ret == DecodeAll(old(four[..i]))
  {
    hide Triple, DecodeAll;
    ghost var rest := four[..i];
    var j := i;
    while j < 4
      invariant i <= j <= 4 && four[..i] == rest
      invariant forall k :: i <= k < j ==> four[k] == 0
    {
      four[j] := 0;
      j := j + 1;
    }
    DecodeRest(rest);
    ret := Octets(four, i - 1);
  }

  lemma DecodeIs(text: Text)
    ensures Decode(text) == DecodeAll(Leading(text))
  {
  }

  lemma OneMore(held: Text, bytes: Text, next: nat)
    requires next < |bytes|
    ensures held + bytes[next..] == held + [bytes[next]] + bytes[next + 1..]
  {
  }

  lemma Regroup(held: Text, c: bv8, rest: Text)
    ensures held + ([c] + rest) == held + [c] + rest
  {
  }

  lemma Shift(a: Text, b: Text, c: Text)
    ensures a + (b + c) == a + b + c
  {
  }

  lemma LeadingGoesOn(text: Text, at: nat)
    requires at < |text| && IsBase64(text[at])
    ensures Leading(text[at..]) == [text[at]] + Leading(text[at + 1..])
  {
    assert text[at..][1..] == text[at + 1..];
  }

  lemma LeadingEnds(text: Text, at: nat)
    requires at <= |text| && (at < |text| ==> text[at] == PAD || !IsBase64(text[at]))
    ensures Leading(text[at..]) == []
  {
  }

  lemma DecodeRest(rest: Text)
    requires |rest| < 4
    ensures DecodeAll(rest) ==
              if rest == [] then [] else Triple(rest[0], At(rest, 1), At(rest, 2), 0)[..|rest| - 1]
  {
    hide Triple;
  }
}
