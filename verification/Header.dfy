/** The header of a manifest file (engine/artifact/header.go). */
module Header {
  import opened Basics

  datatype Error =
    | TooShort | UnknownMagic | UnsupportedEncoding | UnsupportedCrypto
    | TruncatedLength | TruncatedKeyID | BadUtf8 | KeyIDUnderPlain | KeyIDTooLong

  datatype Result<T> = Ok(value: T) | Err(error: Error)

  datatype FileHeader = FileHeader(encoding: string, crypto: string, keyID: Bytes)

  /** Where the body begins comes with the header. */
  datatype Parsed = Parsed(header: FileHeader, end: nat)

  const MagicJSON: Bytes := [0x00, 0x53, 0x43, 0x31]
  const MagicBinary: Bytes := [0x00, 0x53, 0x43, 0x32]

  const MaxKeyIDLength := 255

  /** Well-formed UTF-8, section 4 of RFC 3629. */
  predicate ValidUtf8(b: Bytes)
    decreases |b|
  {
    if b == [] then true
    else if b[0] < 0x80 then ValidUtf8(b[1..])
    else if 0xC2 <= b[0] <= 0xDF then |b| >= 2 && Tail(b[1]) && ValidUtf8(b[2..])
    else if 0xE0 <= b[0] <= 0xEF then
      && |b| >= 3 && Tail(b[1]) && Tail(b[2])
      && (b[0] == 0xE0 ==> b[1] >= 0xA0) && (b[0] == 0xED ==> b[1] <= 0x9F)
      && ValidUtf8(b[3..])
    else
      && 0xF0 <= b[0] <= 0xF4 && |b| >= 4 && Tail(b[1]) && Tail(b[2]) && Tail(b[3])
      && (b[0] == 0xF0 ==> b[1] >= 0x90) && (b[0] == 0xF4 ==> b[1] <= 0x8F)
      && ValidUtf8(b[4..])
  }

  predicate Tail(b: Byte) {
    0x80 <= b <= 0xBF
  }

  /** A Unicode scalar value. */
  predicate Scalar(c: nat) {
    c < 0xD800 || 0xE000 <= c < 0x110000
  }

  /** The encoding of one scalar value, section 3 of RFC 3629. */
  function Utf8Of(c: nat): Bytes
    requires Scalar(c)
  {
    if c < 0x80 then [c]
    else if c < 0x800 then [0xC0 + c / 64, 0x80 + c % 64]
    else if c < 0x10000 then [0xE0 + c / 64 / 64, 0x80 + c / 64 % 64, 0x80 + c % 64]
    else [0xF0 + c / 64 / 64 / 64, 0x80 + c / 64 / 64 % 64, 0x80 + c / 64 % 64, 0x80 + c % 64]
  }

  function Utf8(cs: seq<nat>): Bytes
    requires forall i :: 0 <= i < |cs| ==> Scalar(cs[i])
    decreases |cs|
  {
    if cs == [] then [] else Utf8Of(cs[0]) + Utf8(cs[1..])
  }

  lemma OneMoreIsValid(c: nat, rest: Bytes)
    requires Scalar(c) && ValidUtf8(rest)
    ensures ValidUtf8(Utf8Of(c) + rest)
  {
    var b := Utf8Of(c) + rest;
    assert b[|Utf8Of(c)|..] == rest;
  }

  lemma {:induction false} EncodedIsValid(cs: seq<nat>)
    requires forall i :: 0 <= i < |cs| ==> Scalar(cs[i])
    ensures ValidUtf8(Utf8(cs))
    decreases |cs|
  {
    if cs != [] {
      EncodedIsValid(cs[1..]);
      OneMoreIsValid(cs[0], Utf8(cs[1..]));
    }
  }

  /** The six bits of a tail byte, after those read so far. */
  function More(high: nat, b: Byte): (c: nat)
    requires Tail(b)
    ensures c / 64 == high && 0x80 + c % 64 == b
  {
    high * 64 + (b - 0x80)
  }

  /** The first scalar value of a valid sequence, and what follows it. */
  lemma FirstScalar(b: Bytes) returns (c: nat, n: nat)
    requires ValidUtf8(b) && b != []
    ensures Scalar(c) && 0 < n <= |b| && Utf8Of(c) == b[..n] && ValidUtf8(b[n..])
  {
    var x: int := b[0];
    if x < 0x80 {
      c, n := x, 1;
    } else if x <= 0xDF {
      c, n := More(x - 0xC0, b[1]), 2;
    } else if x <= 0xEF {
      c, n := More(More(x - 0xE0, b[1]), b[2]), 3;
    } else {
      c, n := More(More(More(x - 0xF0, b[1]), b[2]), b[3]), 4;
    }
  }

  lemma {:induction false} ValidIsEncoded(b: Bytes) returns (cs: seq<nat>)
    requires ValidUtf8(b)
    ensures (forall i :: 0 <= i < |cs| ==> Scalar(cs[i])) && Utf8(cs) == b
    decreases |b|
  {
    if b == [] {
      cs := [];
    } else {
      var c, n := FirstScalar(b);
      var rest := ValidIsEncoded(b[n..]);
      cs := [c] + rest;
      assert cs[1..] == rest && b == b[..n] + b[n..];
    }
  }

  /** The validity test accepts exactly the encodings of sequences of scalar values. */
  lemma ValidUtf8ExactlyWhen(b: Bytes)
    ensures ValidUtf8(b) <==> exists cs: seq<nat> :: (forall i :: 0 <= i < |cs| ==> Scalar(cs[i])) && Utf8(cs) == b
  {
    if ValidUtf8(b) { var cs := ValidIsEncoded(b); }
    if cs: seq<nat> :| (forall i :: 0 <= i < |cs| ==> Scalar(cs[i])) && Utf8(cs) == b { EncodedIsValid(cs); }
  }

  function CryptoFlag(c: string): Result<Byte> {
    if c == "" || c == "Plain" then Ok(0)
    else if c == "Sealed" then Ok(1)
    else if c == "Paranoid" then Ok(2)
    else Err(UnsupportedCrypto)
  }

  function CryptoFromFlag(flag: Byte): Result<string> {
    if flag == 0 then Ok("Plain")
    else if flag == 1 then Ok("Sealed")
    else if flag == 2 then Ok("Paranoid")
    else Err(UnsupportedCrypto)
  }

  function WriteHeader(h: FileHeader): Result<Bytes> {
    if h.encoding != "" && h.encoding != "JSON" then Err(UnsupportedEncoding)
    else match CryptoFlag(h.crypto)
      case Err(e) => Err(e)
      case Ok(flag) =>
        if flag == 0 then if h.keyID != [] then Err(KeyIDUnderPlain) else Ok(MagicJSON + [flag])
        else if |h.keyID| > MaxKeyIDLength then Err(KeyIDTooLong)
        else if !ValidUtf8(h.keyID) then Err(BadUtf8)
        else Ok(MagicJSON + [flag, |h.keyID|] + h.keyID)
  }

  /** Exactly which headers can be written, and why the others cannot. */
  lemma WritesExactlyWhen(h: FileHeader)
    ensures WriteHeader(h).Ok? <==>
            && h.encoding in {"", "JSON"}
            && ((h.crypto in {"", "Plain"} && h.keyID == [])
                || (h.crypto in {"Sealed", "Paranoid"} && |h.keyID| <= 255 && ValidUtf8(h.keyID)))
    ensures var r := WriteHeader(h);
            && (r == Err(UnsupportedEncoding) <==> h.encoding !in {"", "JSON"})
            && (h.encoding in {"", "JSON"} ==>
                  && (r == Err(UnsupportedCrypto) <==> h.crypto !in {"", "Plain", "Sealed", "Paranoid"})
                  && (r == Err(KeyIDUnderPlain) <==> h.crypto in {"", "Plain"} && h.keyID != [])
                  && (r == Err(KeyIDTooLong) <==> h.crypto in {"Sealed", "Paranoid"} && |h.keyID| > 255))
  {
  }

  function ReadHeader(data: Bytes): Result<Parsed> {
    if |data| < 5 then Err(TooShort)
    else if data[..4] == MagicBinary then Err(UnsupportedEncoding)
    else if data[..4] != MagicJSON then Err(UnknownMagic)
    else match CryptoFromFlag(data[4])
      case Err(e) => Err(e)
      case Ok(crypto) =>
        if crypto == "Plain" then Ok(Parsed(FileHeader("JSON", crypto, []), 5))
        else if |data| < 6 then Err(TruncatedLength)
        else
          var keyIDLen: int := data[5];
          var end := 6 + keyIDLen;
          if |data| < end then Err(TruncatedKeyID)
          else if !ValidUtf8(data[6..end]) then Err(BadUtf8)
          else Ok(Parsed(FileHeader("JSON", crypto, data[6..end]), end))
  }

  /** Why a file has no header: its length, its magic, its mode, its key id, in this order. */
  lemma RefusalsToRead(data: Bytes)
    ensures var r, magic := ReadHeader(data), if |data| < 5 then [] else data[..4];
            var n: int := if |data| < 6 then 0 else data[5];
            && (r == Err(TooShort) <==> |data| < 5)
            && (r == Err(UnsupportedEncoding) <==> magic == [0x00, 0x53, 0x43, 0x32])
            && (r == Err(UnknownMagic) <==>
                  |data| >= 5 && magic != [0x00, 0x53, 0x43, 0x31] && magic != [0x00, 0x53, 0x43, 0x32])
            && (magic == [0x00, 0x53, 0x43, 0x31] ==>
                  && (r == Err(UnsupportedCrypto) <==> data[4] > 2)
                  && (r == Err(TruncatedLength) <==> 1 <= data[4] <= 2 && |data| == 5)
                  && (r == Err(TruncatedKeyID) <==> 1 <= data[4] <= 2 && 5 < |data| < 6 + n)
                  && (r == Err(BadUtf8) <==>
                        1 <= data[4] <= 2 && 5 < |data| && 6 + n <= |data| && !ValidUtf8(data[6..6 + n])))
  {
  }

  /** The defaults an empty field stands for. */
  function Normal(h: FileHeader): FileHeader {
    h.(encoding := "JSON", crypto := if h.crypto == "" then "Plain" else h.crypto)
  }

  /** What was written is what is read, whatever follows it. */
  lemma ReadsBackWritten(h: FileHeader, body: Bytes)
    requires WriteHeader(h).Ok?
    ensures ReadHeader(WriteHeader(h).value + body) == Ok(Parsed(Normal(h), |WriteHeader(h).value|))
  {
    var w := WriteHeader(h).value;
    var data := w + body;
    assert data[..4] == MagicJSON;
    if CryptoFlag(h.crypto).value != 0 {
      assert data[4] == w[4] && data[5] == w[5] == |h.keyID|;
      assert data[6..6 + |h.keyID|] == w[6..] == h.keyID;
    }
  }

  /** What is read would be written again byte for byte: a file has one header or none. */
  lemma WritesBackRead(data: Bytes)
    requires ReadHeader(data).Ok?
    ensures var p := ReadHeader(data).value;
            p.end <= |data| && WriteHeader(p.header) == Ok(data[..p.end]) && Normal(p.header) == p.header
  {
    var p := ReadHeader(data).value;
    assert data[..4] == MagicJSON;
    if p.header.crypto == "Plain" {
      assert data[..5] == MagicJSON + [data[4]];
    } else {
      assert data[..p.end] == data[..4] + [data[4], data[5]] + data[6..p.end];
    }
  }

  /** No header is the beginning of another. */
  lemma HeadersArePrefixFree(g: FileHeader, h: FileHeader, x: Bytes, y: Bytes)
    requires WriteHeader(g).Ok? && WriteHeader(h).Ok? && WriteHeader(g).value + x == WriteHeader(h).value + y
    ensures Normal(g) == Normal(h) && WriteHeader(g).value == WriteHeader(h).value && x == y
  {
    ReadsBackWritten(g, x);
    ReadsBackWritten(h, y);
    var a, b := WriteHeader(g).value, WriteHeader(h).value;
    assert a == (a + x)[..|a|] && b == (b + y)[..|b|] && x == (a + x)[|a|..] && y == (b + y)[|b|..];
  }

  // ---- What the AEAD blocks are bound to ----

  const TagExt: Bytes := [0x65, 0x78, 0x74]
  const TagUsr: Bytes := [0x75, 0x73, 0x72]
  const TagInline: Bytes := [0x69, 0x6E, 0x6C, 0x69, 0x6E, 0x65, 0x5F, 0x62, 0x6C, 0x6F, 0x62]

  function BlockAAD(header: Bytes, tag: Bytes): Bytes {
    header + [0] + tag
  }

  /** Over all headers: the additional data of two Sealed blocks are equal only for the same block of
      files with the same header, and never equal to a Paranoid body's. */
  lemma AADsAreDistinct(g: FileHeader, h: FileHeader, s: Bytes, t: Bytes)
    requires g.crypto == "Sealed" && WriteHeader(g).Ok? && WriteHeader(h).Ok?
    ensures h.crypto == "Sealed" && BlockAAD(WriteHeader(g).value, s) == BlockAAD(WriteHeader(h).value, t) ==>
              WriteHeader(g).value == WriteHeader(h).value && s == t
    ensures h.crypto == "Paranoid" ==> BlockAAD(WriteHeader(g).value, s) != WriteHeader(h).value
    ensures TagExt != TagUsr && TagUsr != TagInline && TagExt != TagInline
  {
    var a, b := WriteHeader(g).value, WriteHeader(h).value;
    if h.crypto == "Sealed" && BlockAAD(a, s) == BlockAAD(b, t) {
      assert a + ([0] + s) == BlockAAD(a, s) && b + ([0] + t) == BlockAAD(b, t);
      HeadersArePrefixFree(g, h, [0] + s, [0] + t);
      assert s == ([0] + s)[1..] && t == ([0] + t)[1..];
    }
    assert BlockAAD(a, s)[4] == 1;
    assert |TagExt| != |TagInline| && |TagUsr| != |TagInline| && TagExt[0] != TagUsr[0];
  }
}
