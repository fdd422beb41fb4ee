/** The buffer that is encrypted: four bytes of header length, the header, the data. */
module Envelope {
  import opened Bytes
  import opened Utf8
  import opened Json
  import opened Wrappers

  const TWO_TO_THE_32: nat := 0x1_0000_0000

  function Ascii(s: string): text
    requires forall i :: 0 <= i < |s| ==> s[i] < '\U{80}'
  {
    seq(|s|, i requires 0 <= i < |s| => s[i] as int)
  }

  const TEXT_PLAIN: text := Ascii("text/plain")

  /** JavaScript's `s || otherwise` on strings. */
  function Or(s: text, otherwise: text): text {
    if s == [] then otherwise else s
  }

  const T: text := [0x74]
  const F: text := [0x66]

  function HeaderMembers(contentType: text, filename: text): seq<Member> {
    [Member(T, Str(Or(contentType, TEXT_PLAIN))), Member(F, Str(filename))]
  }

  function HeaderBytes(contentType: text, filename: text): bytes {
    TextEncode(Stringify(HeaderMembers(contentType, filename)))
  }

  /** DataView.setUint32, most significant byte first: the value modulo 2^32. */
  function Uint32Bytes(n: nat): (b: bytes)
    ensures |b| == 4
  {
    [n / 256 / 256 / 256 % 256, n / 256 / 256 % 256, n / 256 % 256, n % 256]
  }

  function Shift(high: nat, low: byte): nat {
    high * 256 + low
  }

  function GetUint32(b: bytes): nat
    requires |b| >= 4
  {
    Shift(Shift(Shift(b[0], b[1]), b[2]), b[3])
  }

  function Pack(contentType: text, filename: text, data: bytes): bytes {
    var header := HeaderBytes(contentType, filename);
    Uint32Bytes(|header|) + header + data
  }

  datatype Secret = Secret(contentType: text, filename: text, data: bytes)
  datatype Failure = RangeError | SyntaxError | NotText

  /** `header.t || otherwise`; a number other than 0 is no text. */
  function OrMissing(v: Option<Value>, otherwise: text): Option<text> {
    if v.None? then Some(otherwise)
    else
      match v.value
      case Str(s) => Some(Or(s, otherwise))
      case Int(n) => if n == 0 then Some(otherwise) else None
  }

  /** What a header and the data behind it stand for. */
  function FromHeader(header: Option<seq<Member>>, data: bytes): Result<Secret, Failure> {
    if header.None? then Err(SyntaxError)
    else
      var contentType, filename := OrMissing(Get(header.value, T), TEXT_PLAIN), OrMissing(Get(header.value, F), []);
      if contentType.None? || filename.None? then Err(NotText)
      else Ok(Secret(contentType.value, filename.value, data))
  }

  /** unpackSecret. */
  function Unpack(buffer: bytes): Result<Secret, Failure> {
    if |buffer| < 4 then Err(RangeError)
    else
      var headerLen := GetUint32(buffer);
      if 4 + headerLen > |buffer| then Err(RangeError)
      else
        FromHeader(Parse(TextDecode(buffer[4..4 + headerLen])), buffer[4 + headerLen..])
  }

  /** TypedArray.set: src over dst from the offset on. */
  method SetBytes(dst: array<byte>, offset: nat, src: bytes)
    requires offset + |src| <= dst.Length
    modifies dst
    ensures dst[..] == old(dst[..offset]) + src + old(dst[offset + |src|..])
  {
    var i := 0;
    while i < |src|
      invariant 0 <= i <= |src|
      invariant dst[offset..offset + i] == src[..i]
      invariant dst[..offset] == old(dst[..offset]) && dst[offset + |src|..] == old(dst[offset + |src|..])
    {
      dst[offset + i] := src[i];
      i := i + 1;
    }
    assert dst[..] == dst[..offset] + dst[offset..offset + i] + dst[offset + i..];
  }

  method PackSecret(contentType: text, filename: text, data: array<byte>) returns (packed: array<byte>)
    ensures fresh(packed) && packed[..] == Pack(contentType, filename, data[..])
  {
    var headerBytes := HeaderBytes(contentType, filename);
    var n := 4 + |headerBytes|;
    var length := Uint32Bytes(|headerBytes|);
    packed := new byte[n + data.Length];
    SetBytes(packed, 0, length);
    assert packed[..4] == length;
    SetBytes(packed, 4, headerBytes);
    assert packed[..n] == length + headerBytes;
    SetBytes(packed, n, data[..]);
  }

  // ----- the length field -----

  lemma Uint32RoundTrip(n: nat)
    ensures GetUint32(Uint32Bytes(n)) == n % TWO_TO_THE_32
  {
    var a := n / 256;
    var b := a / 256;
    var c := b / 256;
    var d := c / 256;
    var low := ((c % 256 * 256 + b % 256) * 256 + a % 256) * 256 + n % 256;
    assert n == d * TWO_TO_THE_32 + low;
    Remainder(n, d, low);
  }

  lemma Remainder(n: nat, d: nat, low: nat)
    requires n == d * TWO_TO_THE_32 + low && low < TWO_TO_THE_32
    ensures n % TWO_TO_THE_32 == low
  {
  }

  // ----- the header -----

  /** The header has a type, text/plain if there is none, and a name. */
  lemma HeaderMembersAre(contentType: text, filename: text)
    ensures HeaderMembers(contentType, filename) ==
      [Member(Ascii("t"), Str(if contentType == [] then Ascii("text/plain") else contentType)),
       Member(Ascii("f"), Str(filename))]
  {
    assert Ascii("t") == T && Ascii("f") == F;
  }

  /** The header reads back as it was. */
  lemma HeaderReads(contentType: text, filename: text)
    ensures Parse(TextDecode(HeaderBytes(contentType, filename))) == Some(HeaderMembers(contentType, filename))
  {
    var ms := HeaderMembers(contentType, filename);
    StringifiedSurvivesUtf8(ms);
    ParseRoundTrip(ms);
  }

  lemma HeaderFields(contentType: text, filename: text)
    ensures var ms := HeaderMembers(contentType, filename);
      && OrMissing(Get(ms, T), TEXT_PLAIN) == Some(Or(contentType, TEXT_PLAIN))
      && OrMissing(Get(ms, F), []) == Some(filename)
  {
    var ms := HeaderMembers(contentType, filename);
    assert ms[..1] == [Member(T, Str(Or(contentType, TEXT_PLAIN)))];
    assert Get(ms, F) == Some(Str(filename));
    assert Get(ms, T) == Get(ms[..1], T);
  }

  lemma HeaderMeans(contentType: text, filename: text, data: bytes)
    ensures FromHeader(Parse(TextDecode(HeaderBytes(contentType, filename))), data)
      == Ok(Secret(Or(contentType, TEXT_PLAIN), filename, data))
  {
    HeaderReads(contentType, filename);
    HeaderFields(contentType, filename);
  }

  /** A header with a number for the type: 0 counts as none, any other is no text. */
  lemma NumberedHeader(n: int, m: int, filename: text, data: bytes)
    ensures FromHeader(Some([Member(T, Int(n)), Member(F, Str(filename))]), data)
      == if n == 0 then Ok(Secret(Ascii("text/plain"), filename, data)) else Err(NotText)
    ensures FromHeader(Some([Member(T, Str(TEXT_PLAIN)), Member(F, Int(m))]), data)
      == if m == 0 then Ok(Secret(Ascii("text/plain"), [], data)) else Err(NotText)
    ensures FromHeader(Some([]), data) == Ok(Secret(Ascii("text/plain"), [], data))
  {
    var ms, ns := [Member(T, Int(n)), Member(F, Str(filename))], [Member(T, Str(TEXT_PLAIN)), Member(F, Int(m))];
    assert ms[..1] == [ms[0]] && ns[..1] == [ns[0]];
    assert Get(ms, F) == Some(ms[1].value) && Get(ns, F) == Some(ns[1].value);
    assert Get(ms, T) == Get(ms[..1], T) && Get(ns, T) == Get(ns[..1], T);
  }

  /** A header cut short, wherever the cut falls, does not read at all. */
  lemma TruncatedHeaderFails(contentType: text, filename: text, n: nat)
    requires n < |HeaderBytes(contentType, filename)|
    ensures Parse(TextDecode(HeaderBytes(contentType, filename)[..n])).None?
  {
    var ms := HeaderMembers(contentType, filename);
    var t := Stringify(ms);
    StringifiedWellFormed(ms);
    UnitsScalars(t);
    assert t[0] == OPEN;
    assert Scalars(t) != [] && Scalars(t)[0] == OPEN;
    var j, mark := DecodeTruncated(Scalars(t), n);
    TruncatedFails(ms, j, mark);
  }

  // ----- main results -----

  lemma UnpackStep(length: bytes, header: bytes, data: bytes, n: nat)
    requires |length| == 4 && GetUint32(length) == n <= |header|
    ensures Unpack(length + header + data) == FromHeader(Parse(TextDecode(header[..n])), header[n..] + data)
  {
    var buffer := length + header + data;
    assert GetUint32(buffer) == n;
    assert buffer[4..4 + n] == header[..n];
    assert buffer[4 + n..] == header[n..] + data;
  }

  lemma UnpackWhole(header: bytes, data: bytes)
    requires |header| < TWO_TO_THE_32
    ensures Unpack(Uint32Bytes(|header|) + header + data) == FromHeader(Parse(TextDecode(header)), data)
  {
    Uint32RoundTrip(|header|);
    UnpackStep(Uint32Bytes(|header|), header, data, |header|);
    assert header[..|header|] == header && header[|header|..] + data == data;
  }

  lemma UnpackCut(header: bytes, data: bytes)
    requires TWO_TO_THE_32 <= |header| && Parse(TextDecode(header[..|header| % TWO_TO_THE_32])).None?
    ensures Unpack(Uint32Bytes(|header|) + header + data) == Err(SyntaxError)
  {
    Uint32RoundTrip(|header|);
    UnpackStep(Uint32Bytes(|header|), header, data, |header| % TWO_TO_THE_32);
  }

  /** Unpacking what was packed gives back the content type, 'text/plain' for none, the filename and the
      data, exactly when the header is shorter than 2^32 bytes; a longer one makes the secret unreadable. */
  lemma RoundTripExactly(contentType: text, filename: text, data: bytes)
    ensures Unpack(Pack(contentType, filename, data)) ==
      if |HeaderBytes(contentType, filename)| < TWO_TO_THE_32
      then Ok(Secret(Or(contentType, TEXT_PLAIN), filename, data))
      else Err(SyntaxError)
  {
    var header := HeaderBytes(contentType, filename);
    if |header| < TWO_TO_THE_32 {
      UnpackWhole(header, data);
      HeaderMeans(contentType, filename, data);
    } else {
      TruncatedHeaderFails(contentType, filename, |header| % TWO_TO_THE_32);
      UnpackCut(header, data);
    }
  }

  lemma Cancel(a: bytes, b: bytes, a': bytes, b': bytes)
    requires a + b == a' + b' && |a| == |a'|
    ensures a == a' && b == b'
  {
    assert a == (a + b)[..|a|] && a' == (a' + b')[..|a|];
    assert b == (a + b)[|a|..] && b' == (a' + b')[|a|..];
  }

  lemma CutHeader(h: bytes, d: bytes, h': bytes, d': bytes)
    requires h + d == h' + d' && |h| <= |h'|
    ensures h == h'[..|h|]
  {
    assert h == (h + d)[..|h|] == (h' + d')[..|h|] == h'[..|h|];
  }

  lemma HeaderNotShorter(c: text, f: text, d: bytes, c': text, f': text, d': bytes)
    requires HeaderBytes(c, f) + d == HeaderBytes(c', f') + d'
    ensures |HeaderBytes(c, f)| >= |HeaderBytes(c', f')|
  {
    var h, h' := HeaderBytes(c, f), HeaderBytes(c', f');
    HeaderReads(c, f);
    if |h| < |h'| {
      CutHeader(h, d, h', d');
      TruncatedHeaderFails(c', f', |h|);
    }
  }

  /** Different contents, the default type filled in, give different buffers, whatever their sizes. */
  lemma PackInjective(c: text, f: text, d: bytes, c': text, f': text, d': bytes)
    requires Pack(c, f, d) == Pack(c', f', d')
    ensures Or(c, TEXT_PLAIN) == Or(c', TEXT_PLAIN) && f == f' && d == d'
  {
    var h, h' := HeaderBytes(c, f), HeaderBytes(c', f');
    BehindLength(Uint32Bytes(|h|), h, d);
    BehindLength(Uint32Bytes(|h'|), h', d');
    HeaderNotShorter(c, f, d, c', f', d');
    HeaderNotShorter(c', f', d', c, f, d);
    Cancel(h, d, h', d');
    HeaderMeans(c, f, d);
    HeaderMeans(c', f', d');
  }

  lemma BehindLength(length: bytes, header: bytes, data: bytes)
    requires |length| == 4
    ensures (length + header + data)[4..] == header + data
  {
  }
}
