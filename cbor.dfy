/** The CBOR serialisation of records (serde derives plus `ciborium`),
    kept opaque: an encoder, a decoder that may reject its input, and the
    round-trip law assumed of them as a hypothesis. */
module Cbor {
  import opened Wrappers
  import opened Encryption
  import opened Model

  datatype Codec<!T> = Codec(encode: T -> Bytes, decode: Bytes -> Option<T>)

  ghost predicate CodecLaws<T(!new)>(codec: Codec<T>) {
    forall x: T :: codec.decode(codec.encode(x)) == Some(x)
  }

  // A toy codec for entry data, which only serves to show that `CodecLaws`
  // can be met: each character is a 0 marker and its three bytes, and each
  // string ends with a 1.

  function ToyEncodeChar(c: char): (b: Bytes)
    ensures |b| == 4 && b[0] == 0
  {
    var n := c as int;
    [0, (n / 65536) as byte, ((n % 65536) / 256) as byte, ((n % 65536) % 256) as byte]
  }

  function ToyEncodeString(s: string): Bytes
    decreases |s|
  {
    if s == [] then [1] else ToyEncodeChar(s[0]) + ToyEncodeString(s[1..])
  }

  predicate IsScalarValue(n: int) {
    0 <= n < 0xD800 || 0xE000 <= n < 0x11_0000
  }

  /** A string read off the front of `b`, and what follows it. */
  function ToyDecodeString(b: Bytes): Option<(string, Bytes)>
    decreases |b|
  {
    if |b| > 0 && b[0] == 1 then Some(([], b[1..]))
    else if |b| >= 4 && b[0] == 0 then
      var n := (b[1] as int) * 65536 + (b[2] as int) * 256 + (b[3] as int);
      if !IsScalarValue(n) then None
      else
        match ToyDecodeString(b[4..])
        case Some((s, rest)) => Some(([n as char] + s, rest))
        case None => None
    else None
  }

  lemma {:induction false} ToyStringRoundTrip(s: string, rest: Bytes)
    ensures ToyDecodeString(ToyEncodeString(s) + rest) == Some((s, rest))
    decreases |s|
  {
    if s == [] {
      assert ([1] + rest)[1..] == rest;
    } else {
      var b := ToyEncodeString(s) + rest;
      var n := s[0] as int;
      assert b == ToyEncodeChar(s[0]) + (ToyEncodeString(s[1..]) + rest);
      assert b[4..] == ToyEncodeString(s[1..]) + rest;
      assert (b[1] as int) * 65536 + (b[2] as int) * 256 + (b[3] as int) == n;
      ToyStringRoundTrip(s[1..], rest);
      assert [s[0]] + s[1..] == s;
    }
  }

  function ToyEncode(d: EntryData): Bytes {
    ToyEncodeString(d.entryName) + ToyEncodeString(d.username) + ToyEncodeString(d.password)
  }

  function ToyDecode(b: Bytes): Option<EntryData> {
    match ToyDecodeString(b)
    case None => None
    case Some((name, b1)) =>
      match ToyDecodeString(b1)
      case None => None
      case Some((username, b2)) =>
        match ToyDecodeString(b2)
        case None => None
        case Some((password, b3)) => if b3 == [] then Some(EntryData(name, username, password)) else None
  }

  /** The hypothesis the storage lemmas make of the entry codec is consistent. */
  lemma CodecLawsSatisfiable()
    ensures exists codec: Codec<EntryData> :: CodecLaws(codec)
  {
    var toy := Codec(ToyEncode, ToyDecode);
    forall d: EntryData
      ensures toy.decode(toy.encode(d)) == Some(d)
    {
      var n := ToyEncodeString(d.entryName);
      var u := ToyEncodeString(d.username);
      var p := ToyEncodeString(d.password);
      assert ToyEncode(d) == n + (u + (p + []));
      ToyStringRoundTrip(d.entryName, u + (p + []));
      ToyStringRoundTrip(d.username, p + []);
      ToyStringRoundTrip(d.password, []);
    }
    assert CodecLaws(toy);
  }
}
