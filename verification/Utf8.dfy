/** UTF-8 byte strings: well-formedness after the grammar of section 4 of RFC 3629, and character boundaries. */
module Utf8 {

  newtype byte = x: int | 0 <= x < 256

  type Bytes = seq<byte>

  predicate Continuation(b: byte) { 0x80 <= b <= 0xBF }

  /** Length of the encoded character at the front, or 0 when there is none. */
  function CharLen(s: Bytes): (n: nat)
    ensures n <= 4 && n <= |s|
    ensures n > 0 ==> !Continuation(s[0]) && forall i :: 1 <= i < n ==> Continuation(s[i])
  {
    if |s| >= 1 && s[0] <= 0x7F then 1
    else if |s| >= 2 && 0xC2 <= s[0] <= 0xDF && Continuation(s[1]) then 2
    else if |s| >= 3 && Continuation(s[2])
            && (|| (s[0] == 0xE0 && 0xA0 <= s[1] <= 0xBF)
                || (0xE1 <= s[0] <= 0xEC && Continuation(s[1]))
                || (s[0] == 0xED && 0x80 <= s[1] <= 0x9F)
                || (0xEE <= s[0] <= 0xEF && Continuation(s[1]))) then 3
    else if |s| >= 4 && Continuation(s[2]) && Continuation(s[3])
            && (|| (s[0] == 0xF0 && 0x90 <= s[1] <= 0xBF)
                || (0xF1 <= s[0] <= 0xF3 && Continuation(s[1]))
                || (s[0] == 0xF4 && 0x80 <= s[1] <= 0x8F)) then 4
    else 0
  }

  predicate Valid(s: Bytes) {
    s == [] || (CharLen(s) > 0 && Valid(s[CharLen(s)..]))
  }

  /** `is_char_boundary`: both ends, and every byte that does not continue a character. */
  predicate Boundary(s: Bytes, i: nat) {
    i == 0 || i == |s| || (i < |s| && !Continuation(s[i]))
  }

  lemma CharLenConcat(s: Bytes, t: Bytes)
    requires CharLen(s) > 0
    ensures CharLen(s + t) == CharLen(s) && (s + t)[CharLen(s)..] == s[CharLen(s)..] + t
  {
  }

  lemma CharLenTake(s: Bytes, i: nat)
    requires 0 < CharLen(s) <= i <= |s|
    ensures CharLen(s[..i]) == CharLen(s) && s[..i][CharLen(s)..] == s[CharLen(s)..][..i - CharLen(s)]
  {
  }

  /** The first boundary behind the front is the end of the first character. */
  lemma NoBoundaryInside(s: Bytes, i: nat)
    requires 0 < i <= |s| && CharLen(s) > 0 && Boundary(s, i)
    ensures i >= CharLen(s)
  {
  }

  lemma ValidHead(s: Bytes)
    requires Valid(s) && s != []
    ensures !Continuation(s[0]) && Boundary(s, CharLen(s))
  {
    var n := CharLen(s);
    if n < |s| { assert s[n..][0] == s[n]; }
  }

  lemma BoundaryBehind(s: Bytes, n: nat, i: nat)
    requires n <= |s| && i <= |s| - n && Boundary(s, n)
    ensures Boundary(s[n..], i) <==> Boundary(s, n + i)
  {
    if 0 < i < |s| - n { assert s[n..][i] == s[n + i]; }
  }

  /** A character boundary is never more than three bytes away, in either direction. */
  lemma {:induction false} BoundaryNear(s: Bytes, i: nat) returns (down: nat, up: nat)
    requires Valid(s) && i <= |s|
    ensures down <= i <= up <= |s| && i - down <= 3 && up - i <= 3
    ensures Boundary(s, down) && Boundary(s, up)
  {
    if i == 0 {
      return 0, 0;
    }
    ValidHead(s);
    var n := CharLen(s);
    if i <= n {
      down, up := if i == n then n else 0, n;
    } else {
      var d, u := BoundaryNear(s[n..], i - n);
      BoundaryBehind(s, n, d);
      BoundaryBehind(s, n, u);
      down, up := n + d, n + u;
    }
  }

  lemma TailOfTail(s: Bytes, n: nat, i: nat)
    requires n <= i <= |s|
    ensures s[n..][i - n..] == s[i..]
  {
  }

  /** Cutting at a boundary leaves two well-formed halves. */
  lemma {:induction false} CutAtBoundary(s: Bytes, i: nat)
    requires Valid(s) && i <= |s| && Boundary(s, i)
    ensures Valid(s[..i]) && Valid(s[i..])
  {
    if i == 0 {
      assert s[0..] == s;
    } else {
      var n := CharLen(s);
      NoBoundaryInside(s, i);
      ValidHead(s);
      BoundaryBehind(s, n, i - n);
      CutAtBoundary(s[n..], i - n);
      CharLenTake(s, i);
      TailOfTail(s, n, i);
    }
  }

  lemma {:induction false} ValidConcat(a: Bytes, b: Bytes)
    requires Valid(a) && Valid(b)
    ensures Valid(a + b)
  {
    if a == [] {
      assert a + b == b;
    } else {
      var n := CharLen(a);
      CharLenConcat(a, b);
      ValidConcat(a[n..], b);
    }
  }

  /** Boundaries of a slice taken between boundaries are boundaries of the whole. */
  lemma SliceBoundary(s: Bytes, a: nat, b: nat, i: nat)
    requires a <= b <= |s| && i <= b - a && Boundary(s, a) && Boundary(s, b)
    ensures Boundary(s[a..b], i) <==> Boundary(s, a + i)
  {
    if 0 < i < b - a { assert s[a..b][i] == s[a + i]; }
  }

  lemma SliceValid(s: Bytes, a: nat, b: nat)
    requires Valid(s) && a <= b <= |s| && Boundary(s, a) && Boundary(s, b)
    ensures Valid(s[a..b])
  {
    CutAtBoundary(s, b);
    SliceBoundary(s, 0, b, a);
    assert s[0..b] == s[..b];
    CutAtBoundary(s[..b], a);
    assert s[..b][a..] == s[a..b];
  }

  /** The bytes of a 7-bit string. */
  function Ascii(s: string): (b: Bytes)
    requires forall i :: 0 <= i < |s| ==> s[i] as int < 128
    ensures |b| == |s| && forall i :: 0 <= i < |b| ==> b[i] as int == s[i] as int
  {
    seq(|s|, i requires 0 <= i < |s| => (s[i] as int) as byte)
  }

  lemma {:induction false} AsciiValid(b: Bytes)
    requires forall i :: 0 <= i < |b| ==> b[i] <= 0x7F
    ensures Valid(b)
  {
    if b != [] { AsciiValid(b[1..]); }
  }

  // ---------------------------------------------------------------- what the bytes encode

  /** A Unicode scalar value: any code point but a surrogate. */
  predicate Scalar(c: int) { 0 <= c <= 0x10FFFF && !(0xD800 <= c <= 0xDFFF) }

  /** The table of section 3 of RFC 3629. */
  function Encoded(c: int): Bytes
    requires Scalar(c)
  {
    if c <= 0x7F then [c as byte]
    else if c <= 0x7FF then [(0xC0 + c / 64) as byte, (0x80 + c % 64) as byte]
    else if c <= 0xFFFF then [(0xE0 + c / 4096) as byte, (0x80 + c / 64 % 64) as byte, (0x80 + c % 64) as byte]
    else [(0xF0 + c / 262144) as byte, (0x80 + c / 4096 % 64) as byte, (0x80 + c / 64 % 64) as byte, (0x80 + c % 64) as byte]
  }

  function EncodedAll(cs: seq<int>): Bytes
    requires forall c <- cs :: Scalar(c)
  {
    if cs == [] then [] else Encoded(cs[0]) + EncodedAll(cs[1..])
  }

  /** An encoded character is read back whole, whatever follows it. */
  lemma EncodedIsRead(c: int, rest: Bytes)
    requires Scalar(c)
    ensures CharLen(Encoded(c) + rest) == |Encoded(c)|
  {
  }

  lemma Digits(x: int, y: int, z: int)
    requires 0 <= x && 0 <= y < 64 && 0 <= z < 64
    ensures var c := x * 4096 + y * 64 + z; c / 4096 == x && c / 64 % 64 == y && c % 64 == z
  {
    var c := x * 4096 + y * 64 + z;
    assert c / 64 == x * 64 + y;
  }

  lemma FourDigits(w: int, x: int, y: int, z: int)
    requires 0 <= w && 0 <= x < 64 && 0 <= y < 64 && 0 <= z < 64
    ensures var c := w * 262144 + x * 4096 + y * 64 + z;
            c / 262144 == w && c / 4096 % 64 == x && c / 64 % 64 == y && c % 64 == z
  {
    Digits(w * 64 + x, y, z);
  }

  lemma TwoBytes(s: Bytes) returns (c: int)
    requires CharLen(s) == 2
    ensures Scalar(c) && Encoded(c) == s[..2]
  {
    c := (s[0] as int - 0xC0) * 64 + (s[1] as int - 0x80);
  }

  lemma ThreeBytes(s: Bytes) returns (c: int)
    requires CharLen(s) == 3
    ensures Scalar(c) && Encoded(c) == s[..3]
  {
    var x, y, z := s[0] as int - 0xE0, s[1] as int - 0x80, s[2] as int - 0x80;
    c := x * 4096 + y * 64 + z;
    Digits(x, y, z);
  }

  lemma FourBytes(s: Bytes) returns (c: int)
    requires CharLen(s) == 4
    ensures Scalar(c) && Encoded(c) == s[..4]
  {
    var w, x, y, z := s[0] as int - 0xF0, s[1] as int - 0x80, s[2] as int - 0x80, s[3] as int - 0x80;
    c := w * 262144 + x * 4096 + y * 64 + z;
    FourDigits(w, x, y, z);
  }

  /** What is read as a character is the encoding of one. */
  lemma ReadIsEncoded(s: Bytes) returns (c: int)
    requires CharLen(s) > 0
    ensures Scalar(c) && Encoded(c) == s[..CharLen(s)]
  {
    match CharLen(s) {
      case 1 => c := s[0] as int;
      case 2 => c := TwoBytes(s);
      case 3 => c := ThreeBytes(s);
      case _ => c := FourBytes(s);
    }
  }

  /** A byte string is well-formed exactly when it encodes some scalar values. */
  lemma {:induction false} ValidDecodes(s: Bytes) returns (cs: seq<int>)
    requires Valid(s)
    ensures (forall c <- cs :: Scalar(c)) && EncodedAll(cs) == s
  {
    cs := [];
    if s != [] {
      var c := ReadIsEncoded(s);
      var rest := ValidDecodes(s[CharLen(s)..]);
      cs := [c] + rest;
      assert cs[1..] == rest;
    }
  }

  lemma {:induction false} EncodedIsValid(cs: seq<int>)
    requires forall c <- cs :: Scalar(c)
    ensures Valid(EncodedAll(cs))
  {
    if cs != [] {
      EncodedIsValid(cs[1..]);
      EncodedIsRead(cs[0], EncodedAll(cs[1..]));
      assert EncodedAll(cs)[|Encoded(cs[0])|..] == EncodedAll(cs[1..]);
    }
  }

  /** The first k characters take this many bytes. */
  function BytesOf(cs: seq<int>, k: nat): nat
    requires (forall c <- cs :: Scalar(c)) && k <= |cs|
  {
    if k == 0 then 0 else |Encoded(cs[0])| + BytesOf(cs[1..], k - 1)
  }

  lemma FirstBoundary(c: int, rest: Bytes, i: nat)
    requires Scalar(c) && Valid(rest) && i <= |Encoded(c) + rest|
    ensures 0 < i < |Encoded(c)| ==> !Boundary(Encoded(c) + rest, i)
    ensures i >= |Encoded(c)| ==> (Boundary(Encoded(c) + rest, i) <==> Boundary(rest, i - |Encoded(c)|))
  {
    var n, s := |Encoded(c)|, Encoded(c) + rest;
    EncodedIsRead(c, rest);
    if i > n {
      assert i < |s| ==> s[i] == rest[i - n];
    } else if i == n && rest != [] {
      ValidHead(rest);
      assert s[n] == rest[0];
    }
  }

  /** Byte i lies between two characters, or at an end. */
  predicate Between(cs: seq<int>, i: nat)
    requires forall c <- cs :: Scalar(c)
  {
    exists k :: 0 <= k <= |cs| && i == BytesOf(cs, k)
  }

  lemma BetweenStep(cs: seq<int>, i: nat)
    requires cs != [] && forall c <- cs :: Scalar(c)
    ensures Between(cs, i) <==> i == 0 || (i >= |Encoded(cs[0])| && Between(cs[1..], i - |Encoded(cs[0])|))
  {
    var n, rest := |Encoded(cs[0])|, cs[1..];
    if k :| 0 <= k <= |cs| && i == BytesOf(cs, k) {
      if k > 0 { assert i - n == BytesOf(rest, k - 1); }
    }
    if i == 0 { assert i == BytesOf(cs, 0); }
    if i >= n && Between(rest, i - n) {
      var k :| 0 <= k <= |rest| && i - n == BytesOf(rest, k);
      assert i == BytesOf(cs, k + 1);
    }
  }

  /** In an encoding, exactly the places between two characters are boundaries. */
  lemma {:induction false} BoundaryBetween(cs: seq<int>, i: nat)
    requires (forall c <- cs :: Scalar(c)) && i <= |EncodedAll(cs)|
    ensures Boundary(EncodedAll(cs), i) <==> Between(cs, i)
    decreases |cs|
  {
    if cs == [] {
      assert i == BytesOf(cs, 0);
    } else {
      EncodedIsValid(cs[1..]);
      FirstBoundary(cs[0], EncodedAll(cs[1..]), i);
      BetweenStep(cs, i);
      if i >= |Encoded(cs[0])| { BoundaryBetween(cs[1..], i - |Encoded(cs[0])|); }
    }
  }
}
