/** Packing of internal/packer/packer.go: authenticate, deflate, encrypt, and back. */
module Packer {
  import opened Wrappers
  import opened Words
  import opened Cipher

  type Bytes = seq<Byte>

  /** The library calls. `zlib` returns two header bytes, the raw deflate stream and four checksum bytes. */
  datatype Library = Library(
    zlib: Bytes -> Bytes,
    rawInflate: Bytes -> Option<Bytes>,
    hmac: (Bytes, Bytes) -> Bytes)

  const MAC_LENGTH := 32

  /** What RFC 1951 and HMAC-SHA256 promise of them. */
  ghost predicate Sound(lib: Library) {
    && (forall x :: |lib.zlib(x)| >= 6)
    && (forall x :: lib.rawInflate(lib.zlib(x)[2..|lib.zlib(x)| - 4]) == Some(x))
    && (forall k, x :: |lib.hmac(k, x)| == 32)
  }

  datatype Error = DeflateTooShort | TooShort | InflateFailed | InflatedTooShort | InvalidMAC

  class Packer {
    const key: Bytes
    const lib: Library

    constructor (key: Bytes, lib: Library)
      ensures this.key == key && this.lib == lib
    {
      this.key, this.lib := key, lib;
    }

    function ComputeHash(nonce: Bytes, body: Bytes): Bytes {
      lib.hmac(key + nonce, body)
    }

    /** The stream of one nonce; decryption is the same call. */
    ghost function Crypt(nonce: Bytes, data: Bytes): Bytes
      requires |key| >= 32 && |nonce| >= 12
    {
      Transformed(Cipher(InitialState(key, nonce), GapOf(InitialState(key, nonce))), data, 0)
    }

    method Deflate(header: Bytes, body: Bytes) returns (r: Result<Bytes, Error>)
      ensures |lib.zlib(header + body)| < 6 ==> r == Err(DeflateTooShort)
      ensures |lib.zlib(header + body)| >= 6 ==> r == Ok(lib.zlib(header + body)[2..|lib.zlib(header + body)| - 4])
    {
      var content := header + body;
      var zlibBytes := lib.zlib(content);
      if |zlibBytes| < 6 {
        return Err(DeflateTooShort);
      }
      return Ok(zlibBytes[2..|zlibBytes| - 4]);
    }

    method Inflate(data: Bytes) returns (r: Result<(Bytes, Bytes), Error>)
      ensures r.Ok? <==> lib.rawInflate(data).Some? && |lib.rawInflate(data).value| >= MAC_LENGTH
      ensures r.Ok? ==> |r.value.1| == MAC_LENGTH && lib.rawInflate(data) == Some(r.value.1 + r.value.0)
    {
      var content := lib.rawInflate(data);
      if content.None? {
        return Err(InflateFailed);
      }
      if |content.value| < MAC_LENGTH {
        return Err(InflatedTooShort);
      }
      assert content.value == content.value[..MAC_LENGTH] + content.value[MAC_LENGTH..];
      return Ok((content.value[MAC_LENGTH..], content.value[..MAC_LENGTH]));
    }

    method PackWithNonce(nonce: Bytes, body: Bytes) returns (r: Result<Bytes, Error>)
      requires |key| == 32 && |nonce| == 12
      ensures r == Err(DeflateTooShort) || r.Ok?
      ensures r.Ok? <==> |lib.zlib(ComputeHash(nonce, body) + body)| >= 6
      ensures Sound(lib) ==> r.Ok? && Packs(r.value, body)
      ensures r.Ok? ==> |r.value| >= 12 && r.value[..12] == nonce
      ensures r.Ok? ==>
                var state, stream := InitialState(key, nonce), lib.zlib(lib.hmac(key + nonce, body) + body);
                r.value[12..] == Transformed(Cipher(state, GapOf(state)), stream[2..|stream| - 4], 0)
    {
      var mac := ComputeHash(nonce, body);
      var deflated := Deflate(mac, body);
      if deflated.Err? {
        return Err(deflated.error);
      }
      var c := New(key, nonce);
      var encrypted := Transform(c, deflated.value, 0);
      SelfInverse(c, deflated.value, 0);
      assert (nonce + encrypted)[12..] == encrypted && (nonce + encrypted)[..12] == nonce;
      return Ok(nonce + encrypted);
    }

    /** `packet` carries `body`: it decrypts to a stream that inflates to the body behind its own MAC. */
    ghost predicate Packs(packet: Bytes, body: Bytes)
      requires |key| >= 32
    {
      |packet| >= 12
      && lib.rawInflate(Crypt(packet[..12], packet[12..])) == Some(ComputeHash(packet[..12], body) + body)
    }

    /** Exactly the packets whose MAC matches are accepted, and they yield the body they carry. */
    method Unpack(packet: Bytes) returns (r: Result<Bytes, Error>)
      requires |key| == 32
      requires forall k, x :: |lib.hmac(k, x)| == 32
      ensures forall body :: r == Ok(body) <==> Packs(packet, body)
    {
      if |packet| < 12 {
        return Err(TooShort);
      }
      var nonce := packet[..12];
      var c := New(key, nonce);
      var decrypted := Transform(c, packet[12..], 0);
      assert decrypted == Crypt(nonce, packet[12..]);
      var inflated := Inflate(decrypted);
      if inflated.Err? {
        forall body ensures !Packs(packet, body) {
          assert |ComputeHash(nonce, body) + body| >= MAC_LENGTH;
        }
        return Err(inflated.error);
      }
      var (body, header) := inflated.value;
      var expected := ComputeHash(nonce, body);
      forall other | Packs(packet, other) ensures other == body && expected == header {
        assert ComputeHash(nonce, other) + other == header + body;
        assert other == (ComputeHash(nonce, other) + other)[MAC_LENGTH..] == body;
        assert header == (header + body)[..MAC_LENGTH];
      }
      if expected != header {
        return Err(InvalidMAC);
      }
      return Ok(body);
    }

    method RoundTrip(nonce: Bytes, body: Bytes) returns (r: Result<Bytes, Error>)
      requires |key| == 32 && |nonce| == 12 && Sound(lib)
      ensures r == Ok(body)
    {
      var packet := PackWithNonce(nonce, body);
      r := Unpack(packet.value);
    }
  }
}
