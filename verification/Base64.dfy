/** The order-preserving base64: groups as in section 4 of RFC 4648, but over an alphabet that is sorted by
    byte value: 0-9, A-Z, ^, _, a-z. Text is a string of bytes. */
module Base64 {
  type Text = seq<bv8>

  const PAD: bv8 := 61

  /** `base64_chars[v]`. */
  function Char(v: bv8): bv8
    requires v < 64
  {
    if v < 10 then 48 + v
    else if v < 36 then 55 + v
    else if v < 38 then 58 + v
    else 59 + v
  }

  /** `is_base64`. */
  predicate IsBase64(c: bv8) {
    48 <= c <= 57 || 65 <= c <= 90 || 97 <= c <= 122 || c == 94 || c == 95
  }

  /** `base64_chars.find(c)` as it is stored in an `unsigned char`: what is not found becomes 0xFF. */
  function Find(c: bv8): bv8 {
    if 48 <= c <= 57 then c - 48
    else if 65 <= c <= 90 then c - 55
    else if 94 <= c <= 95 then c - 58
    else if 97 <= c <= 122 then c - 59
    else 0xFF
  }

  /** The four 6-bit parts of three bytes. */
  function Sextet(a: bv8, b: bv8, c: bv8, i: nat): (v: bv8)
    requires i < 4
    ensures v < 64
  {
    match i
    case 0 => (a & 0xfc) >> 2
    case 1 => ((a & 0x03) << 4) + ((b & 0xf0) >> 4)
    case 2 => ((b & 0x0f) << 2) + ((c & 0xc0) >> 6)
    case 3 => c & 0x3f
  }

  /** The three bytes of four 6-bit parts. */
  function Octet(p: bv8, q: bv8, r: bv8, s: bv8, i: nat): bv8
    requires i < 3
  {
    match i
    case 0 => (p << 2) + ((q & 0x30) >> 4)
    case 1 => ((q & 0x0f) << 4) + ((r & 0x3c) >> 2)
    case 2 => ((r & 0x03) << 6) + s
  }

  function Quad(a: bv8, b: bv8, c: bv8): (t: Text)
    ensures |t| == 4
  {
    [Char(Sextet(a, b, c, 0)), Char(Sextet(a, b, c, 1)), Char(Sextet(a, b, c, 2)), Char(Sextet(a, b, c, 3))]
  }

  function Triple(p: bv8, q: bv8, r: bv8, s: bv8): (t: Text)
    ensures |t| == 3
  {
    [Octet(Find(p), Find(q), Find(r), Find(s), 0), Octet(Find(p), Find(q), Find(r), Find(s), 1),
     Octet(Find(p), Find(q), Find(r), Find(s), 2)]
  }

  /** `encode`. */
  function Encode(x: Text): Text {
    if x == [] then []
    else if |x| == 1 then Quad(x[0], 0, 0)[..2] + [PAD, PAD]
    else if |x| == 2 then Quad(x[0], x[1], 0)[..3] + [PAD]
    else Quad(x[0], x[1], x[2]) + Encode(x[3..])
  }

  /** The characters before the first that is not in the alphabet. */
  function Leading(t: Text): (r: Text)
    ensures r <= t && forall i :: 0 <= i < |r| ==> IsBase64(r[i])
  {
    if t == [] || !IsBase64(t[0]) then [] else [t[0]] + Leading(t[1..])
  }

  function DecodeAll(t: Text): Text {
    if t == [] then []
    else if |t| == 1 then Triple(t[0], 0, 0, 0)[..0]
    else if |t| == 2 then Triple(t[0], t[1], 0, 0)[..1]
    else if |t| == 3 then Triple(t[0], t[1], t[2], 0)[..2]
    else Triple(t[0], t[1], t[2], t[3]) + DecodeAll(t[4..])
  }

  /** `decode`. */
  function Decode(t: Text): Text {
    DecodeAll(Leading(t))
  }

  // ----- round trip

  lemma CharFound(v: bv8)
    requires v < 64
    ensures IsBase64(Char(v)) && Find(Char(v)) == v
  {
  }

  /** No other character is accepted. */
  lemma OnlyAlphabet(c: bv8)
    requires IsBase64(c)
    ensures Find(c) < 64 && Char(Find(c)) == c
  {
  }

  predicate Less(a: bv8, b: bv8) { a < b }

  /** The alphabet is sorted. */
  lemma CharsAscend(u: bv8, v: bv8)
    requires Less(u, v) && v < 64
    ensures u < 64 && Less(Char(u), Char(v))
  {
  }

  lemma OctetsOfSextets(a: bv8, b: bv8, c: bv8)
    ensures
      var p, q, r, s := Sextet(a, b, c, 0), Sextet(a, b, c, 1), Sextet(a, b, c, 2), Sextet(a, b, c, 3);
      Octet(p, q, r, s, 0) == a && Octet(p, q, r, s, 1) == b && Octet(p, q, r, s, 2) == c
  {
  }

  /** The first byte needs two parts only, the first two bytes three: what the padding stands for, which `find`
      does not find, does not matter. */
  lemma OctetsOfFewer(a: bv8, b: bv8, r: bv8, s: bv8)
    ensures Octet(Sextet(a, 0, 0, 0), Sextet(a, 0, 0, 1), r, s, 0) == a
    ensures
      var p, q, t := Sextet(a, b, 0, 0), Sextet(a, b, 0, 1), Sextet(a, b, 0, 2);
      Octet(p, q, t, s, 0) == a && Octet(p, q, t, s, 1) == b
  {
  }

  lemma {:induction false} LeadingStops(t: Text, rest: Text)
    requires (forall i :: 0 <= i < |t| ==> IsBase64(t[i])) && (rest != [] ==> !IsBase64(rest[0]))
    ensures Leading(t + rest) == t
  {
    hide IsBase64;
    if t == [] {
      assert t + rest == rest;
    } else {
      assert (t + rest)[0] == t[0];
      LeadingStops(t[1..], rest);
      assert (t + rest)[1..] == t[1..] + rest;
    }
  }

  /** The characters of an encoding, without the padding. */
  function Body(x: Text): Text {
    if x == [] then []
    else if |x| == 1 then Quad(x[0], 0, 0)[..2]
    else if |x| == 2 then Quad(x[0], x[1], 0)[..3]
    else Quad(x[0], x[1], x[2]) + Body(x[3..])
  }

  function Padding(n: nat): Text {
    if n % 3 == 1 then [PAD, PAD] else if n % 3 == 2 then [PAD] else []
  }

  lemma QuadInAlphabet(a: bv8, b: bv8, c: bv8)
    ensures forall i :: 0 <= i < 4 ==> IsBase64(Quad(a, b, c)[i])
  {
    hide Char, IsBase64, Sextet;
    CharFound(Sextet(a, b, c, 0));
    CharFound(Sextet(a, b, c, 1));
    CharFound(Sextet(a, b, c, 2));
    CharFound(Sextet(a, b, c, 3));
  }

  lemma {:induction false} EncodeIsPadded(x: Text)
    ensures Encode(x) == Body(x) + Padding(|x|)
    ensures forall i :: 0 <= i < |Body(x)| ==> IsBase64(Body(x)[i])
  {
    hide Char, IsBase64, Sextet, Quad;
    if |x| == 1 {
      QuadInAlphabet(x[0], 0, 0);
    } else if |x| == 2 {
      QuadInAlphabet(x[0], x[1], 0);
    } else if |x| >= 3 {
      QuadInAlphabet(x[0], x[1], x[2]);
      EncodeIsPadded(x[3..]);
    }
  }

  lemma {:induction false} BodyDecodes(x: Text)
    ensures DecodeAll(Body(x)) == x
  {
    hide Char, Find, Sextet, Octet;
    if |x| >= 1 {
      var a, b, c := x[0], if |x| >= 2 then x[1] else 0, if |x| >= 3 then x[2] else 0;
      CharFound(Sextet(a, b, c, 0));
      CharFound(Sextet(a, b, c, 1));
      CharFound(Sextet(a, b, c, 2));
      CharFound(Sextet(a, b, c, 3));
      if |x| == 1 {
        OctetsOfFewer(a, 0, Find(0), Find(0));
      } else if |x| == 2 {
        OctetsOfFewer(a, b, 0, Find(0));
      } else {
        OctetsOfSextets(a, b, c);
        BodyDecodes(x[3..]);
        assert Body(x)[4..] == Body(x[3..]);
      }
    }
  }

  /** `decode(encode(x)) == x` for every byte string, whatever its length. */
  lemma RoundTrip(x: Text)
    ensures Decode(Encode(x)) == x
  {
    EncodeIsPadded(x);
    LeadingStops(Body(x), Padding(|x|));
    BodyDecodes(x);
  }

  // ----- order

  /** `std::string`'s `<`: at the first difference, or where the first string ends. */
  ghost predicate Precedes(a: Text, b: Text) {
    exists n: nat :: PrecedesAt(a, b, n)
  }

  predicate PrecedesAt(a: Text, b: Text, n: nat) {
    n <= |a| && n < |b| && a[..n] == b[..n] && (n < |a| ==> Less(a[n], b[n]))
  }

  lemma FirstByte(a: bv8, b: bv8, c: bv8, d: bv8, e: bv8, f: bv8)
    requires Less(a, d)
    ensures Less(Sextet(a, b, c, 0), Sextet(d, e, f, 0)) ||
              (Sextet(a, b, c, 0) == Sextet(d, e, f, 0) && Less(Sextet(a, b, c, 1), Sextet(d, e, f, 1)))
  {
  }

  lemma SecondByte(a: bv8, b: bv8, c: bv8, e: bv8, f: bv8)
    requires Less(b, e)
    ensures Sextet(a, b, c, 0) == Sextet(a, e, f, 0)
    ensures Less(Sextet(a, b, c, 1), Sextet(a, e, f, 1)) ||
              (Sextet(a, b, c, 1) == Sextet(a, e, f, 1) && Less(Sextet(a, b, c, 2), Sextet(a, e, f, 2)))
  {
  }

  lemma ThirdByte(a: bv8, b: bv8, c: bv8, f: bv8)
    requires Less(c, f)
    ensures Sextet(a, b, c, 0) == Sextet(a, b, f, 0) && Sextet(a, b, c, 1) == Sextet(a, b, f, 1)
    ensures Less(Sextet(a, b, c, 2), Sextet(a, b, f, 2)) ||
              (Sextet(a, b, c, 2) == Sextet(a, b, f, 2) && Less(Sextet(a, b, c, 3), Sextet(a, b, f, 3)))
  {
  }

  /** Where three bytes first differ, so do their 6-bit parts, there or one further on. */
  lemma SextetsDiffer(a: bv8, b: bv8, c: bv8, d: bv8, e: bv8, f: bv8, i: nat) returns (n: nat)
    requires i < 3
    requires (i >= 1 ==> a == d) && (i == 2 ==> b == e)
    requires Less(if i == 0 then a else if i == 1 then b else c, if i == 0 then d else if i == 1 then e else f)
    ensures i <= n <= i + 1 && Less(Sextet(a, b, c, n), Sextet(d, e, f, n))
    ensures forall k :: 0 <= k < n ==> Sextet(a, b, c, k) == Sextet(d, e, f, k)
  {
    hide Less, Sextet;
    if i == 0 {
      FirstByte(a, b, c, d, e, f);
    } else if i == 1 {
      SecondByte(a, b, c, e, f);
    } else {
      ThirdByte(a, b, c, f);
    }
    n := if Less(Sextet(a, b, c, i), Sextet(d, e, f, i)) then i else i + 1;
  }

  /** A byte of a string, or the zero that fills up its last group. */
  function At(x: Text, i: nat): bv8 {
    if i < |x| then x[i] else 0
  }

  /** The first four characters, as far as they are not padding. */
  lemma FirstGroup(x: Text)
    requires x != []
    ensures |Encode(x)| >= 4
    ensures forall k :: 0 <= k < 4 && k <= |x| ==> Encode(x)[k] == Char(Sextet(At(x, 0), At(x, 1), At(x, 2), k))
  {
    hide Char, Sextet;
  }

  /** Two strings that first differ in their first group. */
  lemma GroupKeepsOrder(x: Text, y: Text, i: nat)
    requires i < 3 && i < |x| && i < |y| && Less(At(x, i), At(y, i))
    requires (i >= 1 ==> At(x, 0) == At(y, 0)) && (i == 2 ==> At(x, 1) == At(y, 1))
    ensures Precedes(Encode(x), Encode(y))
  {
    hide Char, Sextet, Encode, Less, At;
    var n := SextetsDiffer(At(x, 0), At(x, 1), At(x, 2), At(y, 0), At(y, 1), At(y, 2), i);
    FirstGroup(x);
    FirstGroup(y);
    CharsAscend(Sextet(At(x, 0), At(x, 1), At(x, 2), n), Sextet(At(y, 0), At(y, 1), At(y, 2), n));
    assert forall k :: 0 <= k < n ==> Encode(x)[k] == Encode(y)[k];
    assert PrecedesAt(Encode(x), Encode(y), n);
  }

  /** What stands in front of both of two strings does not matter. */
  lemma SameFront(q: Text, u: Text, v: Text)
    requires Precedes(u, v)
    ensures Precedes(q + u, q + v)
  {
    hide Less;
    var n: nat :| PrecedesAt(u, v, n);
    assert (q + u)[..|q| + n] == q + u[..n] && (q + v)[..|q| + n] == q + v[..n];
    assert PrecedesAt(q + u, q + v, |q| + n);
  }

  /** Two strings that first differ at a byte both have are in the same order once encoded. */
  lemma {:induction false} EncodeKeepsOrder(x: Text, y: Text, i: nat)
    requires i < |x| && i < |y| && x[..i] == y[..i] && Less(x[i], y[i])
    ensures Precedes(Encode(x), Encode(y))
    decreases i
  {
    hide Quad, Less, Precedes;
    assert forall k :: 0 <= k < i ==> x[k] == x[..i][k] && y[k] == y[..i][k];
    if i >= 3 {
      assert x[3..][..i - 3] == x[..i][3..] && y[3..][..i - 3] == y[..i][3..];
      EncodeKeepsOrder(x[3..], y[3..], i - 3);
      SameFront(Quad(x[0], x[1], x[2]), Encode(x[3..]), Encode(y[3..]));
    } else {
      GroupKeepsOrder(x, y, i);
    }
  }

  lemma LessOneWay(a: bv8, b: bv8)
    requires a != b
    ensures Less(a, b) <==> !Less(b, a)
  {
  }

  lemma LessNotBoth()
    ensures forall u, v :: Less(u, v) ==> !Less(v, u)
  {
  }

  lemma NotBothAt(a: Text, b: Text, m: nat, n: nat)
    requires PrecedesAt(a, b, m)
    ensures !PrecedesAt(b, a, n)
  {
    LessNotBoth();
    hide Less;
    assert m < n <= |b| && n <= |a| ==> b[..n][m] == b[m] && a[..n][m] == a[m];
    assert n < m ==> b[..m][n] == b[n] && a[..m][n] == a[n];
  }

  lemma PrecedesOneWay(a: Text, b: Text)
    requires Precedes(a, b)
    ensures !Precedes(b, a)
  {
    hide PrecedesAt;
    var m: nat :| PrecedesAt(a, b, m);
    forall n: nat ensures !PrecedesAt(b, a, n) {
      NotBothAt(a, b, m, n);
    }
  }

  lemma FirstDifference(x: Text, y: Text) returns (i: nat)
    requires |x| == |y| && x != y
    ensures i < |x| && x[..i] == y[..i] && x[i] != y[i]
  {
    if x[0] != y[0] {
      i := 0;
    } else {
      assert x == [x[0]] + x[1..] && y == [y[0]] + y[1..];
      i := FirstDifference(x[1..], y[1..]);
      i := i + 1;
      assert x[..i] == [x[0]] + x[1..][..i - 1] && y[..i] == [y[0]] + y[1..][..i - 1];
    }
  }

  /** Encoding keeps the order of strings of one length, both ways. */
  lemma OrderPreserved(x: Text, y: Text)
    requires |x| == |y|
    ensures Precedes(x, y) <==> Precedes(Encode(x), Encode(y))
  {
    hide Encode, Precedes, Less;
    if x != y {
      var i := FirstDifference(x, y);
      LessOneWay(x[i], y[i]);
      if Less(x[i], y[i]) {
        DiffersAt(x, y, i);
        EncodeKeepsOrder(x, y, i);
      } else {
        DiffersAt(y, x, i);
        EncodeKeepsOrder(y, x, i);
        PrecedesOneWay(y, x);
        PrecedesOneWay(Encode(y), Encode(x));
      }
    } else if Precedes(x, x) {
      PrecedesOneWay(x, x);
    } else if Precedes(Encode(x), Encode(x)) {
      PrecedesOneWay(Encode(x), Encode(x));
    }
  }

  lemma DiffersAt(x: Text, y: Text, i: nat)
    requires i < |x| && i < |y| && x[..i] == y[..i] && Less(x[i], y[i])
    ensures Precedes(x, y)
  {
    assert PrecedesAt(x, y, i);
  }

  /** `y` goes on behind its prefix `x` with bytes small enough for their digits to come before the padding. */
  predicate Turns(x: Text, y: Text) {
    var b, c := At(y, |x|), At(y, |x| + 1);
    if |x| % 3 == 1 then Less(b, 2) || (b == 2 && Less(c, 128))
    else |x| % 3 == 2 && Less(b, 10)
  }

  lemma OneByte(a: bv8, b: bv8, c: bv8)
    ensures Sextet(a, 0, 0, 0) == Sextet(a, b, c, 0)
    ensures Less(b, 2) || (b == 2 && Less(c, 128)) ==>
              Sextet(a, 0, 0, 1) == Sextet(a, b, c, 1) && Less(Char(Sextet(a, b, c, 2)), PAD)
    ensures !(Less(b, 2) || (b == 2 && Less(c, 128))) ==>
              Less(Char(Sextet(a, 0, 0, 1)), Char(Sextet(a, b, c, 1))) ||
              (Sextet(a, 0, 0, 1) == Sextet(a, b, c, 1) && Less(PAD, Char(Sextet(a, b, c, 2))))
  {
  }

  lemma TwoBytes(a: bv8, b: bv8, c: bv8)
    ensures Sextet(a, b, 0, 0) == Sextet(a, b, c, 0) && Sextet(a, b, 0, 1) == Sextet(a, b, c, 1)
    ensures Less(c, 10) ==> Sextet(a, b, 0, 2) == Sextet(a, b, c, 2) && Less(Char(Sextet(a, b, c, 3)), PAD)
    ensures !Less(c, 10) ==>
              Less(Char(Sextet(a, b, 0, 2)), Char(Sextet(a, b, c, 2))) ||
              (Sextet(a, b, 0, 2) == Sextet(a, b, c, 2) && Less(PAD, Char(Sextet(a, b, c, 3))))
  {
  }

  /** How two encodings compare that differ at position `p - 1` or at `p`, or not before. */
  lemma TurnAt(u: Text, v: Text, p: nat, turns: bool)
    requires 1 <= p < |u| && p < |v| && u[..p - 1] == v[..p - 1]
    requires turns ==> u[p - 1] == v[p - 1] && Less(v[p], u[p])
    requires !turns ==> Less(u[p - 1], v[p - 1]) || (u[p - 1] == v[p - 1] && Less(u[p], v[p]))
    ensures if turns then Precedes(v, u) else Precedes(u, v)
  {
    hide Less;
    if u[p - 1] == v[p - 1] {
      assert u[..p] == u[..p - 1] + [u[p - 1]] && v[..p] == v[..p - 1] + [v[p - 1]];
    }
    assert PrecedesAt(v, u, p) || PrecedesAt(u, v, p) || PrecedesAt(u, v, p - 1);
    LessNotBoth();
  }

  /** A short string and one that goes on: the first four characters. */
  lemma ShortPrefix(x: Text, y: Text)
    requires |x| < 3 && x < y
    ensures if Turns(x, y) then Precedes(Encode(y), Encode(x)) else Precedes(Encode(x), Encode(y))
  {
    hide Char, Sextet, Less, Precedes, Encode;
    if |x| == 0 {
      EmptyPrecedes(y);
    } else if |x| == 1 {
      FirstGroup(x);
      FirstGroup(y);
      PaddingIs(x);
      assert x[0] == y[0];
      OneByte(y[0], At(y, 1), At(y, 2));
      TurnAt(Encode(x), Encode(y), 2, Turns(x, y));
    } else {
      FirstGroup(x);
      FirstGroup(y);
      PaddingIs(x);
      assert x[0] == y[0] && x[1] == y[1];
      TwoBytes(y[0], y[1], At(y, 2));
      assert Encode(x)[..2] == Encode(y)[..2];
      TurnAt(Encode(x), Encode(y), 3, Turns(x, y));
    }
  }

  lemma EmptyPrecedes(y: Text)
    requires y != []
    ensures Precedes(Encode([]), Encode(y))
  {
    FirstGroup(y);
    assert PrecedesAt(Encode([]), Encode(y), 0);
  }

  lemma PaddingIs(x: Text)
    requires 1 <= |x| < 3
    ensures |Encode(x)| == 4 && Encode(x)[|x| + 1] == PAD
  {
  }

  lemma {:induction false} PrefixOrder(x: Text, y: Text)
    requires x < y
    ensures if Turns(x, y) then Precedes(Encode(y), Encode(x)) else Precedes(Encode(x), Encode(y))
  {
    hide Less, Quad, Precedes;
    if |x| < 3 {
      ShortPrefix(x, y);
    } else {
      var s, t := x[3..], y[3..];
      assert s < t && x[0] == y[0] && x[1] == y[1] && x[2] == y[2];
      assert At(t, |s|) == At(y, |x|) && At(t, |s| + 1) == At(y, |x| + 1);
      PrefixOrder(s, t);
      if Turns(x, y) {
        SameFront(Quad(x[0], x[1], x[2]), Encode(t), Encode(s));
      } else {
        SameFront(Quad(x[0], x[1], x[2]), Encode(s), Encode(t));
      }
    }
  }

  /** For strings of any lengths: the order is kept except exactly where one is a prefix of the other that the
      padding turns. */
  lemma OrderKeptIff(x: Text, y: Text)
    requires Precedes(x, y)
    ensures Precedes(Encode(x), Encode(y)) <==> !(x < y && Turns(x, y))
  {
    hide Encode, Less, Turns;
    var n: nat :| PrecedesAt(x, y, n);
    if n < |x| {
      EncodeKeepsOrder(x, y, n);
      LessNotBoth();
      assert x[n] != y[n];
    } else {
      assert y[..|x|] == x[..|x|] == x;
      PrefixOrder(x, y);
      if Turns(x, y) {
        PrecedesOneWay(Encode(y), Encode(x));
      }
    }
  }

  /** Of different lengths they may not: the padding character comes behind the digits. */
  lemma PrefixMayTurn()
    ensures Precedes([0], [0, 0]) && Precedes(Encode([0, 0]), Encode([0]))
  {
    assert PrecedesAt([0], [0, 0], 1);
    assert Encode([0]) == [48, 48, PAD, PAD];
    assert Encode([0, 0]) == [48, 48, 48, PAD];
    assert PrecedesAt(Encode([0, 0]), Encode([0]), 2);
  }
}
