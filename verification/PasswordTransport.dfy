/**
 How a password travels from the browser: encrypted with AES in CBC mode (section 6.2 of NIST
 SP 800-38A) under a key derived from a one-time passphrase, padded as in section 6.3 of RFC 5652.

 MD5 and the block cipher are parameters; all that is used of the cipher is that decryption undoes
 encryption.
 */
module PasswordTransport {
  import opened Wrappers

  type Bytes = seq<bv8>

  const BLOCK: nat := 16

  datatype Primitives = Primitives(md5: Bytes -> Bytes, encrypt: (Bytes, Bytes) -> Bytes,
                                   decrypt: (Bytes, Bytes) -> Bytes)

  ghost predicate Sound(p: Primitives) {
    && (forall m :: |p.md5(m)| == BLOCK)
    && (forall k, b | |b| == BLOCK :: |p.encrypt(k, b)| == BLOCK)
    && (forall k, b | |b| == BLOCK :: |p.decrypt(k, b)| == BLOCK)
    && (forall k, b | |b| == BLOCK :: p.decrypt(k, p.encrypt(k, b)) == b)
  }

  // ----- Key derivation -----------------------------------------------------------------------

  /** D0 is empty, and each Di is the MD5 of the previous one, the password and the salt. */
  function Digest(p: Primitives, password: Bytes, salt: Bytes, i: nat): Bytes {
    if i == 0 then [] else p.md5(Digest(p, password, salt, i - 1) + password + salt)
  }

  function Material(p: Primitives, password: Bytes, salt: Bytes, n: nat): Bytes {
    if n == 0 then [] else Material(p, password, salt, n - 1) + Digest(p, password, salt, n)
  }

  /** The 48 bytes spelled out. */
  lemma MaterialOfThree(p: Primitives, password: Bytes, salt: Bytes)
    ensures var d1 := p.md5(password + salt);
      var d2 := p.md5(d1 + password + salt);
      Material(p, password, salt, 3) == d1 + d2 + p.md5(d2 + password + salt)
  {
    var d1 := p.md5(password + salt);
    assert [] + password + salt == password + salt;
    assert Digest(p, password, salt, 1) == d1;
    assert Digest(p, password, salt, 2) == p.md5(d1 + password + salt);
    assert Material(p, password, salt, 1) == d1;
    assert Material(p, password, salt, 2) == d1 + Digest(p, password, salt, 2);
    assert Material(p, password, salt, 3) == Material(p, password, salt, 2) + Digest(p, password, salt, 3);
  }

  /** Go's append on a slice that is the first `len` bytes of `buf`: it writes behind the slice when
      there is room, and else moves to a new array with `spare` bytes of room. */
  method Append(buf: array<bv8>, len: nat, tail: Bytes, spare: nat) returns (out: array<bv8>, outLen: nat)
    requires len <= buf.Length
    modifies buf
    ensures outLen == len + |tail| <= out.Length && out[..outLen] == old(buf[..len]) + tail
    ensures if outLen <= buf.Length then out == buf else fresh(out) && buf[..] == old(buf[..])
    ensures buf[..len] == old(buf[..len])
    ensures forall i | outLen <= i < buf.Length :: buf[i] == old(buf[i])
  {
    outLen := len + |tail|;
    if outLen <= buf.Length {
      out := buf;
    } else {
      out := new bv8[outLen + spare];
      forall i | 0 <= i < len { out[i] := buf[i]; }
    }
    forall i | 0 <= i < |tail| { out[len + i] := tail[i]; }
    assert out[..outLen] == out[..len] + out[len..outLen];
    assert out[len..outLen] == tail;
  }

  /** The data of the next round: the hash, the password and the salt. */
  method NextData(hash: Bytes, password: array<bv8>, len: nat, salt: Bytes, spare: nat)
    returns (data: array<bv8>, dataLen: nat)
    requires |hash| == BLOCK && len <= password.Length
    modifies password
    ensures fresh(data) && dataLen <= data.Length && data[..dataLen] == hash + old(password[..len]) + salt
    ensures password[..len] == old(password[..len])
    ensures forall i | len + |salt| <= i < password.Length :: password[i] == old(password[i])
  {
    var tail, tailLen := Append(password, len, salt, spare);
    var digest := new bv8[BLOCK](j requires 0 <= j < BLOCK => hash[j]);
    assert digest[..BLOCK] == hash;
    data, dataLen := Append(digest, BLOCK, tail[..tailLen], spare);
    assert hash + (old(password[..len]) + salt) == hash + old(password[..len]) + salt;
  }

  /** The password slice may share its array with what is appended to it: every append then writes the
      salt behind the password once more, under the data of the previous round. */
  method DeriveKeyAndIV(p: Primitives, password: array<bv8>, len: nat, salt: Bytes, spare: nat)
    returns (key: Bytes, iv: Bytes)
    requires Sound(p) && len <= password.Length
    modifies password
    ensures key + iv == Material(p, old(password[..len]), salt, 3) && |key| == 32 && |iv| == 16
    ensures password[..len] == old(password[..len])
    ensures forall i | len + |salt| <= i < password.Length :: password[i] == old(password[i])
  {
    ghost var pass := password[..len];
    var result: Bytes := [];
    var data, dataLen := Append(password, len, salt, spare);
    ghost var i := 0;
    assert Digest(p, pass, salt, 0) + pass + salt == pass + salt;
    while |result| < 48
      invariant i <= 3 && |result| == BLOCK * i
      invariant result == Material(p, pass, salt, i)
      invariant 0 <= dataLen <= data.Length && data[..dataLen] == Digest(p, pass, salt, i) + pass + salt
      invariant password[..len] == pass
      invariant forall j | len + |salt| <= j < password.Length :: password[j] == old(password[j])
      decreases 3 - i
    {
      var hash := p.md5(data[..dataLen]);
      result := result + hash;
      data, dataLen := NextData(hash, password, len, salt, spare);
      i := i + 1;
    }
    key, iv := result[..32], result[32..48];
    assert key + iv == result;
  }

  // ----- Cipher block chaining and padding ----------------------------------------------------

  function Xor(a: Bytes, b: Bytes): (r: Bytes)
    requires |a| == |b|
    ensures |r| == |a| && forall i | 0 <= i < |r| :: r[i] == a[i] ^ b[i]
  {
    seq(|a|, i requires 0 <= i < |a| => a[i] ^ b[i])
  }

  lemma XorTwice(a: Bytes, b: Bytes)
    requires |a| == |b|
    ensures Xor(Xor(a, b), b) == a
  {
    forall i | 0 <= i < |a|
      ensures (a[i] ^ b[i]) ^ b[i] == a[i]
    {
      XorByteTwice(a[i], b[i]);
    }
  }

  lemma XorByteTwice(x: bv8, y: bv8)
    ensures (x ^ y) ^ y == x
  {
  }

  function EncryptBlocks(p: Primitives, key: Bytes, iv: Bytes, data: Bytes): (c: Bytes)
    requires Sound(p) && |iv| == BLOCK && |data| % BLOCK == 0
    ensures |c| == |data|
    decreases |data|
  {
    if data == [] then []
    else var c := p.encrypt(key, Xor(data[..BLOCK], iv));
         c + EncryptBlocks(p, key, c, data[BLOCK..])
  }

  function DecryptBlocks(p: Primitives, key: Bytes, iv: Bytes, cipher: Bytes): (d: Bytes)
    requires Sound(p) && |iv| == BLOCK && |cipher| % BLOCK == 0
    ensures |d| == |cipher|
    decreases |cipher|
  {
    if cipher == [] then []
    else Xor(p.decrypt(key, cipher[..BLOCK]), iv) + DecryptBlocks(p, key, cipher[..BLOCK], cipher[BLOCK..])
  }

  lemma {:induction false} BlocksRoundTrip(p: Primitives, key: Bytes, iv: Bytes, data: Bytes)
    requires Sound(p) && |iv| == BLOCK && |data| % BLOCK == 0
    ensures DecryptBlocks(p, key, iv, EncryptBlocks(p, key, iv, data)) == data
    decreases |data|
  {
    if data != [] {
      var c := p.encrypt(key, Xor(data[..BLOCK], iv));
      var rest := EncryptBlocks(p, key, c, data[BLOCK..]);
      BlocksRoundTrip(p, key, c, data[BLOCK..]);
      XorTwice(data[..BLOCK], iv);
      assert (c + rest)[..BLOCK] == c && (c + rest)[BLOCK..] == rest;
      assert data[..BLOCK] + data[BLOCK..] == data;
    }
  }

  /** The i-th block. */
  function Block(data: Bytes, i: nat): (b: Bytes)
    requires 16 * (i + 1) <= |data|
    ensures |b| == 16
  {
    if i == 0 then data[..16] else Block(data[16..], i - 1)
  }

  lemma {:induction false} BlockAt(data: Bytes, i: nat)
    requires 16 * (i + 1) <= |data|
    ensures Block(data, i) == data[16 * i..16 * (i + 1)]
  {
    if 0 < i {
      BlockAt(data[16..], i - 1);
      assert data[16..][16 * (i - 1)..16 * i] == data[16 * i..16 * (i + 1)];
    }
  }

  lemma FirstCipherBlock(p: Primitives, key: Bytes, iv: Bytes, data: Bytes)
    requires Sound(p) && |iv| == 16 && |data| % 16 == 0 && data != []
    ensures var c, first := EncryptBlocks(p, key, iv, data), p.encrypt(key, Xor(Block(data, 0), iv));
      c[..16] == first && c[16..] == EncryptBlocks(p, key, first, data[16..])
  {
  }

  /** Each block of the ciphertext is the cipher of the plain block, added to the ciphertext block before it, or
      to the initial vector. */
  lemma {:induction false} CipherBlock(p: Primitives, key: Bytes, iv: Bytes, data: Bytes, i: nat)
    requires Sound(p) && |iv| == 16 && |data| % 16 == 0 && 16 * (i + 1) <= |data|
    ensures var c := EncryptBlocks(p, key, iv, data);
      Block(c, i) == p.encrypt(key, Xor(Block(data, i), if i == 0 then iv else Block(c, i - 1)))
    decreases i
  {
    FirstCipherBlock(p, key, iv, data);
    if 0 < i {
      CipherBlock(p, key, p.encrypt(key, Xor(Block(data, 0), iv)), data[16..], i - 1);
    }
  }

  /** The padding of the sender: n bytes of value n, up to the next full block. */
  function Pad(data: Bytes): (r: Bytes)
    ensures |r| % BLOCK == 0 && 0 < |r|
  {
    var n := BLOCK - |data| % BLOCK;
    data + seq(n, _ => n as bv8)
  }

  /** Between 1 and 16 bytes, each of which is their number. */
  lemma PadsByCount(data: Bytes)
    ensures var n := |Pad(data)| - |data|;
      1 <= n <= 16 && Pad(data)[..|data|] == data && forall i | |data| <= i < |Pad(data)| :: Pad(data)[i] as nat == n
  {
    var n := BLOCK - |data| % BLOCK;
    ByteOfNat(n);
  }

  /** The receiver looks at the last byte only. */
  function Unpad(data: Bytes): Bytes
    requires BLOCK <= |data|
  {
    var n := data[|data| - 1] as nat;
    if 0 < n <= BLOCK then data[..|data| - n] else data
  }

  /** As many bytes are taken off as the last byte says, if that is between 1 and 16. */
  lemma UnpadsByCount(data: Bytes)
    requires 16 <= |data|
    ensures var n := data[|data| - 1] as nat;
      Unpad(data) == if 1 <= n <= 16 then data[..|data| - n] else data
  {
  }

  lemma ByteOfNat(n: nat)
    requires n <= BLOCK
    ensures (n as bv8) as nat == n
  {
  }

  lemma PadRoundTrip(data: Bytes)
    ensures Unpad(Pad(data)) == data
  {
    var n := BLOCK - |data| % BLOCK;
    var tail := seq(n, _ => n as bv8);
    ByteOfNat(n);
    assert Pad(data) == data + tail;
    assert (data + tail)[|data| + n - 1] == tail[n - 1];
    assert (data + tail)[..|data|] == data;
  }

  // ----- The whole message --------------------------------------------------------------------

  datatype Outcome = Rejected | Panics | Password(plain: Bytes)

  const SALTED: Bytes := [0x53, 0x61, 0x6c, 0x74, 0x65, 0x64, 0x5f, 0x5f]

  /** What the browser sends. */
  ghost function Send(p: Primitives, password: Bytes, passphrase: Bytes, salt: Bytes): Bytes
    requires Sound(p) && |salt| == 8
  {
    var material := Material(p, passphrase, salt, 3);
    MaterialLength(p, passphrase, salt, 3);
    SALTED + salt + EncryptBlocks(p, material[..32], material[32..48], Pad(password))
  }

  lemma {:induction false} MaterialLength(p: Primitives, password: Bytes, salt: Bytes, n: nat)
    requires Sound(p)
    ensures |Material(p, password, salt, n)| == BLOCK * n
  {
    if n != 0 {
      MaterialLength(p, password, salt, n - 1);
    }
  }

  /** What the server makes of a message; `message` is None when it is not base64. */
  ghost function Receive(p: Primitives, message: Option<Bytes>, passphrase: Bytes): Outcome
    requires Sound(p)
  {
    if message.None? || |message.value| < 16 then Rejected
    else
      var material := Material(p, passphrase, message.value[8..16], 3);
      MaterialLength(p, passphrase, message.value[8..16], 3);
      Deciphered(p, material[..32], material[32..48], message.value[16..])
  }

  ghost function Deciphered(p: Primitives, key: Bytes, iv: Bytes, cipher: Bytes): (r: Outcome)
    requires Sound(p) && |iv| == BLOCK
    ensures r != Rejected && (r == Panics <==> cipher == [] || |cipher| % BLOCK != 0)
  {
    if |cipher| % BLOCK != 0 || cipher == [] then Panics else Password(Unpad(DecryptBlocks(p, key, iv, cipher)))
  }

  method DecryptAESPassword(p: Primitives, message: Option<Bytes>, passphrase: array<bv8>, len: nat, spare: nat)
    returns (r: Outcome)
    requires Sound(p) && len <= passphrase.Length
    modifies passphrase
    ensures r == Receive(p, message, old(passphrase[..len]))
  {
    if message.None? || |message.value| < 16 { return Rejected; }
    var salt := message.value[8..16];
    var cipherdata := message.value[16..];
    var key, iv := DeriveKeyAndIV(p, passphrase, len, salt, spare);
    ghost var material := key + iv;
    assert key == material[..32] && iv == material[32..48];
    if |cipherdata| % BLOCK != 0 { return Panics; }
    var plaintext := DecryptBlocks(p, key, iv, cipherdata);
    if plaintext == [] { return Panics; }
    var paddingLen := plaintext[|plaintext| - 1] as nat;
    if paddingLen > 0 && paddingLen <= BLOCK {
      plaintext := plaintext[..|plaintext| - paddingLen];
    }
    r := Password(plaintext);
  }

  /** The server gets back every password that the browser sends under the same passphrase. */
  lemma TransportRoundTrip(p: Primitives, password: Bytes, passphrase: Bytes, salt: Bytes)
    requires Sound(p) && |salt| == 8
    ensures Receive(p, Some(Send(p, password, passphrase, salt)), passphrase) == Password(password)
  {
    var material := Material(p, passphrase, salt, 3);
    MaterialLength(p, passphrase, salt, 3);
    var cipher := EncryptBlocks(p, material[..32], material[32..48], Pad(password));
    var message := Send(p, password, passphrase, salt);
    assert message[8..16] == salt && message[16..] == cipher;
    BlocksRoundTrip(p, material[..32], material[32..48], Pad(password));
    PadRoundTrip(password);
  }

  /** Which messages are refused, which make the decryption panic, and which yield a password. */
  lemma ReceivedAs(p: Primitives, message: Option<Bytes>, passphrase: Bytes)
    requires Sound(p)
    ensures var r := Receive(p, message, passphrase);
      && (r == Rejected <==> message.None? || |message.value| < 16)
      && (r == Panics <==> message.Some? && 16 <= |message.value|
                           && (|message.value| == 16 || |message.value| % BLOCK != 0))
  {
    if message.Some? && 16 <= |message.value| {
      BlocksAfterHeader(message.value);
    }
  }

  lemma BlocksAfterHeader(message: Bytes)
    requires BLOCK <= |message|
    ensures message[BLOCK..] == [] <==> |message| == BLOCK
    ensures |message[BLOCK..]| % BLOCK == |message| % BLOCK
  {
  }
}
