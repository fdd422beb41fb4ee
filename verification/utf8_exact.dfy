/** What the decoder does with any bytes, told by the encoder: section 3.9 of the Unicode Standard, and what
    a well-formed string is, index by index. */
module Utf8Exact {
  import opened Bytes
  import opened Utf8

  // ----- strings -----

  /** No surrogate at index i is alone. */
  ghost predicate InPair(s: text, i: nat)
    requires i < |s|
  {
    && (0xD800 <= s[i] <= 0xDBFF ==> i + 1 < |s| && 0xDC00 <= s[i + 1] <= 0xDFFF)
    && (0xDC00 <= s[i] <= 0xDFFF ==> i > 0 && 0xD800 <= s[i - 1] <= 0xDBFF)
  }

  ghost predicate AllInPairs(s: text) {
    forall i :: 0 <= i < |s| ==> InPair(s, i)
  }

  lemma PairsAfterOne(s: text)
    requires s != [] && !Surrogate(s[0])
    ensures AllInPairs(s) <==> AllInPairs(s[1..])
  {
    assert forall i :: 0 <= i < |s[1..]| ==> (InPair(s[1..], i) <==> InPair(s, i + 1));
    assert InPair(s, 0);
    if AllInPairs(s[1..]) {
      forall i | 0 <= i < |s| ensures InPair(s, i) {
        assert i > 0 ==> InPair(s[1..], i - 1);
      }
    }
  }

  lemma PairsAfterTwo(s: text)
    requires Paired(s)
    ensures AllInPairs(s) <==> AllInPairs(s[2..])
  {
    assert forall i :: 0 <= i < |s[2..]| ==> (InPair(s[2..], i) <==> InPair(s, i + 2));
    assert InPair(s, 0) && InPair(s, 1);
    if AllInPairs(s[2..]) {
      forall i | 0 <= i < |s| ensures InPair(s, i) {
        assert i > 1 ==> InPair(s[2..], i - 2);
      }
    }
  }

  /** A string is well-formed exactly when every high surrogate has a low one behind it and every low one a high
      one before it. */
  lemma {:induction false} WellFormedExactly(s: text)
    ensures WellFormed(s) <==> AllInPairs(s)
    decreases |s|
  {
    if s == [] {
    } else if Paired(s) {
      PairsAfterTwo(s);
      WellFormedExactly(s[2..]);
    } else if Surrogate(s[0]) {
      assert !InPair(s, 0);
    } else {
      PairsAfterOne(s);
      WellFormedExactly(s[1..]);
    }
  }

  /** The conversion to scalar values puts U+FFFD in the place of each lone surrogate, and leaves the rest. */
  lemma {:induction false} ScalarsExactly(s: text, i: nat)
    requires i < |s|
    ensures |Units(Scalars(s))| == |s|
    ensures Units(Scalars(s))[i] == if InPair(s, i) then s[i] else 0xFFFD
    decreases |s|
  {
    UnitsScalars(s);
    if Paired(s) {
      var rest := Units(Scalars(s[2..]));
      UnitsOfCombine(s[0], s[1]);
      assert Units(Scalars(s)) == [s[0], s[1]] + rest;
      UnitsScalars(s[2..]);
      if i >= 2 {
        ScalarsExactly(s[2..], i - 2);
        assert InPair(s[2..], i - 2) <==> InPair(s, i);
      }
    } else {
      var first: Unit := if Surrogate(s[0]) then 0xFFFD else s[0];
      var rest := Units(Scalars(s[1..]));
      assert Units(Scalars(s)) == [first] + rest;
      UnitsScalars(s[1..]);
      if i >= 1 {
        ScalarsExactly(s[1..], i - 1);
        assert InPair(s[1..], i - 1) <==> InPair(s, i);
      }
    }
  }

  // ----- bytes -----

  /** The bytes begin the encoding of some scalar value. */
  ghost predicate Begins(p: bytes) {
    exists c: Scalar :: p <= EncodeScalar(c)
  }

  predicate Tail(x: int) {
    0x80 <= x <= 0xBF
  }

  lemma JoinTail(high: nat, x: byte)
    requires Tail(x)
    ensures Join(high, x) / 64 == high && 0x80 + Join(high, x) % 64 == x
  {
  }

  lemma Encodes2(x: byte, y: byte)
    requires 0xC2 <= x <= 0xDF && Tail(y)
    ensures var c := Join(x % 32, y); c < 0x800 && EncodeScalar(c) == [x, y]
  {
    JoinTail(x % 32, y);
  }

  predicate Second(x: byte, y: int) {
    && (if x == 0xE0 then 0xA0 else if x == 0xF0 then 0x90 else 0x80) <= y
    && y <= (if x == 0xED then 0x9F else if x == 0xF4 then 0x8F else 0xBF)
  }

  lemma Encodes3(x: byte, y: byte, z: byte)
    requires 0xE0 <= x <= 0xEF && Second(x, y) && Tail(z)
    ensures var c := Join(Join(x % 16, y), z);
      0x800 <= c < 0x1_0000 && !Surrogate(c) && EncodeScalar(c) == [x, y, z]
  {
    JoinTail(x % 16, y);
    JoinTail(Join(x % 16, y), z);
  }

  lemma Encodes4(x: byte, y: byte, z: byte, w: byte)
    requires 0xF0 <= x <= 0xF4 && Second(x, y) && Tail(z) && Tail(w)
    ensures var c := Join(Join(Join(x % 8, y), z), w);
      0x1_0000 <= c < 0x11_0000 && EncodeScalar(c) == [x, y, z, w]
  {
    JoinTail(x % 8, y);
    JoinTail(Join(x % 8, y), z);
    JoinTail(Join(Join(x % 8, y), z), w);
  }

  /** The bytes an encoding is made of. */
  lemma EncodedRanges(c: Scalar)
    ensures var e := EncodeScalar(c);
      && (|e| == 1 ==> e[0] < 0x80)
      && (|e| == 2 ==> 0xC2 <= e[0] <= 0xDF && Tail(e[1]))
      && (|e| == 3 ==> 0xE0 <= e[0] <= 0xEF && Second(e[0], e[1]) && Tail(e[2]))
      && (|e| == 4 ==> 0xF0 <= e[0] <= 0xF4 && Second(e[0], e[1]) && Tail(e[2]) && Tail(e[3]))
  {
    if 0x800 <= c < 0x1_0000 {
      Second3(c);
    }
  }

  /** A scalar value whose encoding stands at the beginning is what is read. */
  lemma EncodedIsRead(b: bytes)
    ensures forall c: Scalar :: EncodeScalar(c) <= b ==> b != [] && DecodeFirst(b) == (c, |EncodeScalar(c)|)
  {
    forall c: Scalar | EncodeScalar(c) <= b ensures b != [] && DecodeFirst(b) == (c, |EncodeScalar(c)|) {
      FirstOfEncoded(c, b);
    }
  }

  lemma BeginsRanges(p: bytes)
    requires Begins(p) && p != []
    ensures p[0] < 0x80 || 0xC2 <= p[0] <= 0xF4
    ensures |p| > 1 ==> 0xC2 <= p[0] && Second(p[0], p[1])
    ensures |p| > 2 ==> 0xE0 <= p[0] && Tail(p[2])
    ensures |p| > 3 ==> 0xF0 <= p[0] && Tail(p[3])
  {
    var c: Scalar :| p <= EncodeScalar(c);
    EncodedRanges(c);
    var e := EncodeScalar(c);
    assert forall i :: 0 <= i < |p| ==> p[i] == e[i];
  }

  lemma Whole(b: bytes)
    requires b != []
    requires
      || b[0] < 0x80
      || (|b| > 1 && 0xC2 <= b[0] <= 0xDF && Tail(b[1]))
      || (|b| > 2 && 0xE0 <= b[0] <= 0xEF && Second(b[0], b[1]) && Tail(b[2]))
      || (|b| > 3 && 0xF0 <= b[0] <= 0xF4 && Second(b[0], b[1]) && Tail(b[2]) && Tail(b[3]))
    ensures exists c: Scalar :: EncodeScalar(c) <= b
  {
    if b[0] < 0x80 {
      assert EncodeScalar(b[0]) <= b;
    } else if b[0] <= 0xDF {
      Encodes2(b[0], b[1]);
      assert EncodeScalar(Join(b[0] % 32, b[1])) <= b;
    } else if b[0] <= 0xEF {
      Encodes3(b[0], b[1], b[2]);
      assert EncodeScalar(Join(Join(b[0] % 16, b[1]), b[2])) <= b;
    } else {
      Encodes4(b[0], b[1], b[2], b[3]);
      assert EncodeScalar(Join(Join(Join(b[0] % 8, b[1]), b[2]), b[3])) <= b;
    }
  }

  /** How many of the bytes begin an encoding, when they do not begin with a whole one. */
  lemma BrokenLead(b: bytes)
    requires b != [] && (forall c: Scalar :: !(EncodeScalar(c) <= b))
    ensures var (c, n) := DecodeFirst(b);
      c == REPLACEMENT && (n == 1 || Begins(b[..n])) && (n < |b| ==> !Begins(b[..n + 1]))
  {
    var x := b[0];
    var n := DecodeFirst(b).1;
    if x < 0x80 {
      Whole(b);
    } else if 0xC2 <= x <= 0xDF {
      Broken2(b);
    } else if 0xE0 <= x <= 0xEF {
      Broken3(b);
    } else if 0xF0 <= x <= 0xF4 {
      Broken4(b);
    } else if |b| > 1 && Begins(b[..2]) {
      BeginsRanges(b[..2]);
    }
  }

  lemma Broken2(b: bytes)
    requires b != [] && 0xC2 <= b[0] <= 0xDF && (forall c: Scalar :: !(EncodeScalar(c) <= b))
    ensures DecodeFirst(b) == (REPLACEMENT, 1) && (|b| > 1 ==> !Begins(b[..2]))
  {
    if |b| > 1 {
      if Tail(b[1]) {
        Whole(b);
      }
      if Begins(b[..2]) {
        BeginsRanges(b[..2]);
      }
    }
  }

  lemma Broken3(b: bytes)
    requires b != [] && 0xE0 <= b[0] <= 0xEF && (forall c: Scalar :: !(EncodeScalar(c) <= b))
    ensures var (c, n) := DecodeFirst(b);
      c == REPLACEMENT && (n == 1 || Begins(b[..n])) && (n < |b| ==> !Begins(b[..n + 1]))
  {
    if |b| > 1 {
      if Begins(b[..2]) {
        BeginsRanges(b[..2]);
      }
      if Second(b[0], b[1]) {
        Encodes3(b[0], b[1], 0x80);
        assert b[..2] <= EncodeScalar(Join(Join(b[0] % 16, b[1]), 0x80));
        if |b| > 2 {
          if Tail(b[2]) {
            Whole(b);
          }
          if Begins(b[..3]) {
            BeginsRanges(b[..3]);
          }
        }
      }
    }
  }

  lemma Broken4(b: bytes)
    requires b != [] && 0xF0 <= b[0] <= 0xF4 && (forall c: Scalar :: !(EncodeScalar(c) <= b))
    ensures var (c, n) := DecodeFirst(b);
      c == REPLACEMENT && (n == 1 || Begins(b[..n])) && (n < |b| ==> !Begins(b[..n + 1]))
  {
    if |b| > 1 {
      if Begins(b[..2]) {
        BeginsRanges(b[..2]);
      }
      if Second(b[0], b[1]) {
        Encodes4(b[0], b[1], 0x80, 0x80);
        assert b[..2] <= EncodeScalar(Join(Join(Join(b[0] % 8, b[1]), 0x80), 0x80));
        if |b| > 2 {
          Broken4Third(b);
        }
      }
    }
  }

  lemma Broken4Third(b: bytes)
    requires |b| > 2 && 0xF0 <= b[0] <= 0xF4 && Second(b[0], b[1]) && (forall c: Scalar :: !(EncodeScalar(c) <= b))
    ensures var (c, n) := DecodeFirst(b);
      c == REPLACEMENT && n == (if Tail(b[2]) then 3 else 2)
      && (n == 3 ==> Begins(b[..n])) && (n < |b| ==> !Begins(b[..n + 1]))
  {
    if Begins(b[..3]) {
      BeginsRanges(b[..3]);
    }
    if Tail(b[2]) {
      Encodes4(b[0], b[1], b[2], 0x80);
      assert b[..3] <= EncodeScalar(Join(Join(Join(b[0] % 8, b[1]), b[2]), 0x80));
      if |b| > 3 {
        if Tail(b[3]) {
          Whole(b);
        }
        if Begins(b[..4]) {
          BeginsRanges(b[..4]);
        }
      }
    }
  }

  /** A whole encoding at the beginning is read; otherwise U+FFFD stands for as many bytes as begin an encoding,
      no more, and for one if none does. */
  lemma DecodeFirstExactly(b: bytes)
    requires b != []
    ensures forall c: Scalar :: EncodeScalar(c) <= b ==> DecodeFirst(b) == (c, |EncodeScalar(c)|)
    ensures (forall c: Scalar :: !(EncodeScalar(c) <= b)) ==>
      var (c, n) := DecodeFirst(b);
      c == 0xFFFD && (n == 1 || Begins(b[..n])) && (n < |b| ==> !Begins(b[..n + 1]))
  {
    EncodedIsRead(b);
    if forall c: Scalar :: !(EncodeScalar(c) <= b) {
      BrokenLead(b);
    }
  }
}
