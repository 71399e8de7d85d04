/**
 * AES-CBC with PKCS#7 padding (bccsp/sw/aes.go): section 6.3 of RFC 5652 for the padding and
 * section 6.2 of NIST SP 800-38A for the chaining.  The block cipher is an arbitrary
 * permutation of 16-byte blocks per key, the initialisation vector is a parameter.
 */
module AesCbc {
  import opened Wrappers

  /** Bytes as bit-vectors, since blocks are combined by exclusive or. */
  type Octets = seq<bv8>

  datatype Cipher = Cipher(encrypt: Octets -> Octets, decrypt: Octets -> Octets)

  /** Decryption undoes encryption on whole blocks. */
  ghost predicate Permutation(c: Cipher) {
    forall b: Octets :: |b| == 16 ==> |c.encrypt(b)| == 16 && |c.decrypt(b)| == 16 && c.decrypt(c.encrypt(b)) == b
  }

  datatype Fault =
    | InvalidKeySize
    | NotBlockMultiple
    | InvalidPadding
    | IndexPanic         // an index or slice expression out of range

  type Outcome<T> = Result<T, Fault>

  predicate KeySizeOk(key: Octets) {
    |key| == 16 || |key| == 24 || |key| == 32
  }

  // ---------------------------------------------------------------- padding

  /** byte(k) for a pad length. */
  function PadByte(k: nat): (b: bv8)
    requires 1 <= k <= 16
    ensures b as int == k
  {
    k as bv8
  }

  function PadLength(n: nat): (k: nat)
    ensures 1 <= k <= 16 && (n + k) % 16 == 0
  {
    16 - n % 16
  }

  function Repeat(b: bv8, k: nat): (r: Octets)
    ensures |r| == k && forall i :: 0 <= i < k ==> r[i] == b
  {
    seq(k, _ => b)
  }

  /** pkcs7Padding. */
  function Pad(src: Octets): (r: Octets)
    ensures |r| % 16 == 0 && |r| > 0 && src <= r && |r| - |src| <= 16
    ensures forall i :: |src| <= i < |r| ==> r[i] as int == |r| - |src|
  {
    src + Repeat(PadByte(PadLength(|src|)), PadLength(|src|))
  }

  /** pkcs7UnPadding; indexing an empty or too short slice panics. */
  method Unpad(src: Octets) returns (r: Outcome<Octets>)
    ensures r == Unpadded(src)
  {
    var length := |src|;
    if length == 0 { return Failure(IndexPanic); }
    var unpadding := src[length - 1] as int;
    if unpadding > 16 || unpadding == 0 { return Failure(InvalidPadding); }
    if length - unpadding < 0 { return Failure(IndexPanic); }
    var pad := src[length - unpadding..];
    for i := 0 to unpadding
      invariant forall k :: 0 <= k < i ==> pad[k] == PadByte(unpadding)
    {
      if pad[i] != PadByte(unpadding) { return Failure(InvalidPadding); }
    }
    r := Success(src[..length - unpadding]);
  }

  function Unpadded(src: Octets): Outcome<Octets> {
    if src == [] then Failure(IndexPanic)
    else
      var k := src[|src| - 1] as int;
      if k > 16 || k == 0 then Failure(InvalidPadding)
      else if k > |src| then Failure(IndexPanic)
      else if forall i :: |src| - k <= i < |src| ==> src[i] == PadByte(k) then Success(src[..|src| - k])
      else Failure(InvalidPadding)
  }

  lemma UnpadUndoesPad(src: Octets)
    ensures Unpadded(Pad(src)) == Success(src)
  {
    var p, k := Pad(src), PadLength(|src|);
    assert p[|p| - 1] == PadByte(k);
    assert p[..|p| - k] == src;
  }

  /** On a non-empty whole number of blocks, unpadding accepts exactly the images of padding. */
  lemma UnpadIff(src: Octets, r: Octets)
    requires src != [] && |src| % 16 == 0
    ensures Unpadded(src) == Success(r) <==> src == Pad(r)
  {
    if Unpadded(src) == Success(r) {
      var k := src[|src| - 1] as int;
      PadLengthUnique(|r|, k);
      assert src == src[..|src| - k] + src[|src| - k..];
      assert src[|src| - k..] == Repeat(PadByte(k), k);
    }
    if src == Pad(r) { UnpadUndoesPad(r); }
  }

  lemma PadLengthUnique(n: nat, k: nat)
    requires 1 <= k <= 16 && (n + k) % 16 == 0
    ensures k == PadLength(n)
  {}

  /** On a non-empty whole number of blocks, unpadding never indexes out of range. */
  lemma UnpadNeverPanics(src: Octets)
    requires src != [] && |src| % 16 == 0
    ensures Unpadded(src) != Failure(IndexPanic)
  {
    assert |src| >= 16;
  }

  // --------------------------------------------------------------- chaining

  function Xor(a: Octets, b: Octets): (r: Octets)
    requires |a| == |b|
    ensures |r| == |a| && forall i :: 0 <= i < |a| ==> r[i] == a[i] ^ b[i]
  {
    seq(|a|, i requires 0 <= i < |a| => a[i] ^ b[i])
  }

  lemma XorTwice(a: Octets, b: Octets)
    requires |a| == |b|
    ensures Xor(Xor(a, b), a) == b
  {
    forall i | 0 <= i < |a| ensures (a[i] ^ b[i]) ^ a[i] == b[i] { BitXorTwice(a[i], b[i]); }
  }

  lemma BitXorTwice(x: bv8, y: bv8)
    ensures (x ^ y) ^ x == y
  {}

  /** Each block is combined with the previous cipher block, then encrypted. */
  function CbcEncrypt(c: Cipher, prev: Octets, plain: Octets): (r: Octets)
    requires |prev| == 16 && |plain| % 16 == 0
    requires forall b: Octets :: |b| == 16 ==> |c.encrypt(b)| == 16
    ensures |r| == |plain|
    decreases |plain|
  {
    if plain == [] then []
    else
      var block := c.encrypt(Xor(prev, plain[..16]));
      block + CbcEncrypt(c, block, plain[16..])
  }

  /** Each block is decrypted, then combined with the previous cipher block. */
  function CbcDecrypt(c: Cipher, prev: Octets, cipher: Octets): (r: Octets)
    requires |prev| == 16 && |cipher| % 16 == 0
    requires forall b: Octets :: |b| == 16 ==> |c.decrypt(b)| == 16
    ensures |r| == |cipher|
    decreases |cipher|
  {
    if cipher == [] then []
    else Xor(prev, c.decrypt(cipher[..16])) + CbcDecrypt(c, cipher[..16], cipher[16..])
  }

  lemma CbcDecryptFirst(c: Cipher, prev: Octets, block: Octets, rest: Octets)
    requires |prev| == 16 && |block| == 16 && |rest| % 16 == 0
    requires forall b: Octets :: |b| == 16 ==> |c.decrypt(b)| == 16
    ensures CbcDecrypt(c, prev, block + rest) == Xor(prev, c.decrypt(block)) + CbcDecrypt(c, block, rest)
  {
    assert (block + rest)[..16] == block && (block + rest)[16..] == rest;
  }

  lemma BlockRoundTrip(c: Cipher, prev: Octets, block: Octets)
    requires Permutation(c) && |prev| == 16 && |block| == 16
    ensures Xor(prev, c.decrypt(c.encrypt(Xor(prev, block)))) == block
  {
    XorTwice(prev, block);
    assert Xor(prev, Xor(prev, block)) == Xor(Xor(prev, block), prev);
  }

  /** Encryption also undoes decryption on whole blocks. */
  ghost predicate Onto(c: Cipher) {
    forall b: Octets :: |b| == 16 ==> c.encrypt(c.decrypt(b)) == b
  }

  lemma BlockRoundTripBack(c: Cipher, prev: Octets, block: Octets)
    requires Permutation(c) && Onto(c) && |prev| == 16 && |block| == 16
    ensures c.encrypt(Xor(prev, Xor(prev, c.decrypt(block)))) == block
  {
    var plain := c.decrypt(block);
    XorTwice(prev, plain);
    assert Xor(prev, Xor(prev, plain)) == Xor(Xor(prev, plain), prev);
  }

  lemma CbcEncryptFirst(c: Cipher, prev: Octets, block: Octets, rest: Octets)
    requires |prev| == 16 && |block| == 16 && |rest| % 16 == 0
    requires forall b: Octets :: |b| == 16 ==> |c.encrypt(b)| == 16
    ensures var out := c.encrypt(Xor(prev, block)); CbcEncrypt(c, prev, block + rest) == out + CbcEncrypt(c, out, rest)
  {
    assert (block + rest)[..16] == block && (block + rest)[16..] == rest;
  }

  ghost predicate Sized(c: Cipher) {
    (forall b: Octets :: |b| == 16 ==> |c.encrypt(b)| == 16) && (forall b: Octets :: |b| == 16 ==> |c.decrypt(b)| == 16)
  }

  lemma StepForth(c: Cipher, prev: Octets, first: Octets, rest: Octets, block: Octets, whole: Octets)
    requires Sized(c) && |prev| == |first| == |block| == 16 && |rest| % 16 == 0 && |whole| % 16 == 0 && whole == first + rest
    requires block == c.encrypt(Xor(prev, first)) && Xor(prev, c.decrypt(block)) == first
    requires CbcDecrypt(c, block, CbcEncrypt(c, block, rest)) == rest
    ensures CbcDecrypt(c, prev, CbcEncrypt(c, prev, whole)) == whole
  {
    CbcEncryptFirst(c, prev, first, rest);
    CbcDecryptFirst(c, prev, block, CbcEncrypt(c, block, rest));
  }

  lemma StepBack(c: Cipher, prev: Octets, first: Octets, rest: Octets, plain: Octets, whole: Octets)
    requires Sized(c) && |prev| == |first| == |plain| == 16 && |rest| % 16 == 0 && |whole| % 16 == 0 && whole == first + rest
    requires plain == Xor(prev, c.decrypt(first)) && c.encrypt(Xor(prev, plain)) == first
    requires CbcEncrypt(c, first, CbcDecrypt(c, first, rest)) == rest
    ensures CbcEncrypt(c, prev, CbcDecrypt(c, prev, whole)) == whole
  {
    CbcDecryptFirst(c, prev, first, rest);
    CbcEncryptFirst(c, prev, plain, CbcDecrypt(c, first, rest));
  }

  /** Decryption under the same key and initialisation vector undoes encryption. */
  lemma {:induction false} CbcRoundTrip(c: Cipher, prev: Octets, plain: Octets)
    requires Permutation(c) && |prev| == 16 && |plain| % 16 == 0
    ensures CbcDecrypt(c, prev, CbcEncrypt(c, prev, plain)) == plain
    decreases |plain|
  {
    if plain != [] {
      var first, rest := plain[..16], plain[16..];
      var block := c.encrypt(Xor(prev, first));
      BlockRoundTrip(c, prev, first);
      CbcRoundTrip(c, block, rest);
      StepForth(c, prev, first, rest, block, plain);
    }
  }

  /** And encryption undoes decryption. */
  lemma {:induction false} CbcRoundTripBack(c: Cipher, prev: Octets, cipher: Octets)
    requires Permutation(c) && Onto(c) && |prev| == 16 && |cipher| % 16 == 0
    ensures CbcEncrypt(c, prev, CbcDecrypt(c, prev, cipher)) == cipher
    decreases |cipher|
  {
    if cipher != [] {
      var first, rest := cipher[..16], cipher[16..];
      assert first + rest == cipher;
      assert CbcEncrypt(c, first, CbcDecrypt(c, first, rest)) == rest by { CbcRoundTripBack(c, first, rest); }
      var plain := Xor(prev, c.decrypt(first));
      assert c.encrypt(Xor(prev, plain)) == first by { BlockRoundTripBack(c, prev, first); }
      StepBack(c, prev, first, rest, plain, cipher);
    }
  }

  // -------------------------------------------------- encryption and decryption

  method WriteBlock(buf: array<bv8>, at: nat, block: Octets)
    requires at + |block| <= buf.Length
    modifies buf
    ensures buf[..] == old(buf[..at]) + block + old(buf[at + |block|..])
  {
    forall i | 0 <= i < |block| { buf[at + i] := block[i]; }
  }

  lemma CbcEncryptStep(c: Cipher, done: Octets, prev: Octets, s: Octets)
    requires |prev| == 16 && |s| % 16 == 0 && s != []
    requires forall b: Octets :: |b| == 16 ==> |c.encrypt(b)| == 16
    ensures |s| >= 16 && |s[16..]| % 16 == 0
    ensures var block := c.encrypt(Xor(prev, s[..16]));
            |block| == 16 && done + CbcEncrypt(c, prev, s) == (done + block) + CbcEncrypt(c, block, s[16..])
  {}

  /** CBC encryption of s into the buffer behind the initialisation vector. */
  method CryptBlocks(c: Cipher, s: Octets, ciphertext: array<bv8>)
    requires Permutation(c) && |s| % 16 == 0 && ciphertext.Length == 16 + |s|
    modifies ciphertext
    ensures ciphertext[..] == old(ciphertext[..16]) + CbcEncrypt(c, old(ciphertext[..16]), s)
  {
    ghost var iv := ciphertext[..16];
    var prev := ciphertext[..16];
    var todo, at := s, 16;
    ghost var done := iv;
    while todo != []
      invariant |todo| % 16 == 0 && |prev| == 16
      invariant at + |todo| == ciphertext.Length
      invariant 16 <= at && ciphertext[..at] == done
      invariant iv + CbcEncrypt(c, iv, s) == done + CbcEncrypt(c, prev, todo)
      decreases |todo|
    {
      CbcEncryptStep(c, done, prev, todo);
      var block := c.encrypt(Xor(prev, todo[..16]));
      WriteBlock(ciphertext, at, block);
      assert ciphertext[..at + 16] == done + block;
      done := done + block;
      prev, todo, at := block, todo[16..], at + 16;
    }
    assert done + [] == done && ciphertext[..] == ciphertext[..at];
  }

  /** aesCBCEncrypt with the given initialisation vector. */
  method AesCbcEncrypt(aes: Octets -> Cipher, key: Octets, s: Octets, iv: Octets) returns (r: Outcome<Octets>)
    requires |iv| == 16 && Permutation(aes(key))
    ensures r == if |s| % 16 != 0 then Failure(NotBlockMultiple)
                 else if !KeySizeOk(key) then Failure(InvalidKeySize)
                 else Success(iv + CbcEncrypt(aes(key), iv, s))
  {
    if |s| % 16 != 0 { return Failure(NotBlockMultiple); }
    if !KeySizeOk(key) { return Failure(InvalidKeySize); }
    var ciphertext := new bv8[16 + |s|](_ => 0);
    WriteBlock(ciphertext, 0, iv);
    assert ciphertext[..16] == iv;
    CryptBlocks(aes(key), s, ciphertext);
    r := Success(ciphertext[..]);
  }

  lemma WholeRest(n: nat, blocks: nat)
    requires n % 16 == 0 && 16 * blocks <= n
    ensures (n - 16 * blocks) % 16 == 0
  {}

  /** The buffer when the first 1 + blocks blocks are still cipher text and the rest is decrypted. */
  ghost function PartlyDecrypted(c: Cipher, was: Octets, blocks: nat): Octets
    requires forall b: Octets :: |b| == 16 ==> |c.decrypt(b)| == 16
    requires |was| % 16 == 0 && 16 * (blocks + 1) <= |was|
  {
    WholeRest(|was|, blocks + 1);
    was[..16 * blocks + 16] + CbcDecrypt(c, was[16 * blocks..16 * blocks + 16], was[16 * blocks + 16..])
  }

  lemma PartlyDecryptedStep(c: Cipher, was: Octets, blocks: nat)
    requires forall b: Octets :: |b| == 16 ==> |c.decrypt(b)| == 16
    requires blocks > 0 && |was| % 16 == 0 && 16 * (blocks + 1) <= |was|
    ensures var start, buf := 16 * blocks, PartlyDecrypted(c, was, blocks);
            && |buf| == |was|
            && buf[start - 16..start] == was[start - 16..start]
            && buf[start..start + 16] == was[start..start + 16]
            && PartlyDecrypted(c, was, blocks - 1) ==
               buf[..start] + Xor(was[start - 16..start], c.decrypt(was[start..start + 16])) + buf[start + 16..]
  {
    var start, buf := 16 * blocks, PartlyDecrypted(c, was, blocks);
    WholeRest(|was|, blocks);
    WholeRest(|was|, blocks + 1);
    assert was[start..][..16] == was[start..start + 16] && was[start..][16..] == was[start + 16..];
    assert buf[start + 16..] == CbcDecrypt(c, was[start..start + 16], was[start + 16..]);
    assert buf[..start] == was[..start];
  }

  /** CBC decryption in place, from the last block to the first; the first block is the IV. */
  method DecryptBlocksInPlace(c: Cipher, src: array<bv8>)
    requires Permutation(c) && src.Length % 16 == 0 && src.Length >= 16
    modifies src
    ensures src[..] == old(src[..16]) + CbcDecrypt(c, old(src[..16]), old(src[16..]))
  {
    ghost var was := src[..];
    var blocks := src.Length / 16 - 1;
    assert was[..|was|] + [] == was;
    while blocks > 0
      invariant 0 <= blocks && 16 * (blocks + 1) <= src.Length
      invariant src[..] == PartlyDecrypted(c, was, blocks)
      decreases blocks
    {
      var start := 16 * blocks;
      PartlyDecryptedStep(c, was, blocks);
      var prev, block := src[start - 16..start], src[start..start + 16];
      assert prev == src[..][start - 16..start] && block == src[..][start..start + 16];
      WriteBlock(src, start, Xor(prev, c.decrypt(block)));
      blocks := blocks - 1;
    }
    assert was[0..16] == was[..16];
  }

  /**
   * aesCBCDecrypt works in the caller's buffer: the first block is left alone and everything
   * after it is overwritten by the plaintext returned.
   */
  method AesCbcDecrypt(aes: Octets -> Cipher, key: Octets, src: array<bv8>) returns (r: Outcome<Octets>)
    requires Permutation(aes(key))
    modifies src
    ensures r == CbcPlain(aes, key, old(src[..]))
    ensures r.Success? ==> src[..] == old(src[..])[..16] + r.value
    ensures r.Failure? ==> src[..] == old(src[..])
  {
    if !KeySizeOk(key) { return Failure(InvalidKeySize); }
    if src.Length < 16 { return Failure(NotBlockMultiple); }
    if (src.Length - 16) % 16 != 0 { return Failure(NotBlockMultiple); }
    ghost var was := src[..];
    assert was[..16] == src[..16] && was[16..] == src[16..];
    DecryptBlocksInPlace(aes(key), src);
    assert src[..] == src[..16] + src[16..];
    r := Success(src[16..]);
  }

  function CbcPlain(aes: Octets -> Cipher, key: Octets, src: Octets): Outcome<Octets>
    requires forall b: Octets :: |b| == 16 ==> |aes(key).decrypt(b)| == 16
  {
    if !KeySizeOk(key) then Failure(InvalidKeySize)
    else if |src| < 16 || (|src| - 16) % 16 != 0 then Failure(NotBlockMultiple)
    else Success(CbcDecrypt(aes(key), src[..16], src[16..]))
  }

  /**
   * What is left in the array behind a slice of the given length after pkcs7Padding: the padding is
   * written behind the slice if there is room for it, and nowhere otherwise.
   */
  function Appended(buf: Octets, len: nat): (r: Octets)
    requires len <= |buf|
    ensures |r| == |buf| && r[..len] == buf[..len]
  {
    var padded := Pad(buf[..len]);
    if |padded| <= |buf| then padded + buf[|padded|..] else buf
  }

  /** pkcs7Padding of the first len elements of buf, whose remaining elements are spare capacity. */
  method Pkcs7Padding(buf: array<bv8>, len: nat) returns (padded: Octets)
    requires len <= buf.Length
    modifies buf
    ensures padded == Pad(old(buf[..len]))
    ensures buf[..] == Appended(old(buf[..]), len)
  {
    var padding := 16 - len % 16;
    var padtext := Repeat(PadByte(padding), padding);
    padded := buf[..len] + padtext;
    ghost var was := buf[..];
    assert was[..len] == buf[..len];
    if len + padding <= buf.Length {
      WriteBlock(buf, len, padtext);
    }
  }

  /** AESCBCPKCS7Encrypt of the first len elements of buf, whose remaining elements are spare capacity. */
  method AesCbcPkcs7Encrypt(aes: Octets -> Cipher, key: Octets, buf: array<bv8>, len: nat, iv: Octets) returns (r: Outcome<Octets>)
    requires |iv| == 16 && Permutation(aes(key)) && len <= buf.Length
    modifies buf
    ensures r == EncryptedMessage(aes, key, old(buf[..len]), iv)
    ensures buf[..] == Appended(old(buf[..]), len)
  {
    var padded := Pkcs7Padding(buf, len);
    r := AesCbcEncrypt(aes, key, padded, iv);
  }

  function EncryptedMessage(aes: Octets -> Cipher, key: Octets, src: Octets, iv: Octets): Outcome<Octets>
    requires |iv| == 16 && forall b: Octets :: |b| == 16 ==> |aes(key).encrypt(b)| == 16
  {
    if !KeySizeOk(key) then Failure(InvalidKeySize) else Success(iv + CbcEncrypt(aes(key), iv, Pad(src)))
  }

  /** AESCBCPKCS7Decrypt, in the caller's buffer. */
  method AesCbcPkcs7Decrypt(aes: Octets -> Cipher, key: Octets, src: array<bv8>) returns (r: Outcome<Octets>)
    requires Permutation(aes(key))
    modifies src
    ensures r == DecryptedMessage(aes, key, old(src[..]))
    ensures src.Length >= 16 ==> src[..16] == old(src[..16])
  {
    var pt := AesCbcDecrypt(aes, key, src);
    if pt.Failure? { return Failure(pt.error); }
    r := Unpad(pt.value);
  }

  function DecryptedMessage(aes: Octets -> Cipher, key: Octets, src: Octets): Outcome<Octets>
    requires forall b: Octets :: |b| == 16 ==> |aes(key).decrypt(b)| == 16
  {
    match CbcPlain(aes, key, src)
    case Failure(e) => Failure(e)
    case Success(pt) => Unpadded(pt)
  }

  /** Every plaintext survives encryption and decryption, for every key of a valid size and every IV. */
  lemma MessageRoundTrip(aes: Octets -> Cipher, key: Octets, plain: Octets, iv: Octets)
    requires KeySizeOk(key) && Permutation(aes(key)) && |iv| == 16
    ensures EncryptedMessage(aes, key, plain, iv).Success?
    ensures DecryptedMessage(aes, key, EncryptedMessage(aes, key, plain, iv).value) == Success(plain)
  {
    var cipher := EncryptedMessage(aes, key, plain, iv).value;
    assert cipher[..16] == iv && cipher[16..] == CbcEncrypt(aes(key), iv, Pad(plain));
    CbcRoundTrip(aes(key), iv, Pad(plain));
    UnpadUndoesPad(plain);
  }

  /**
   * Decryption runs into an index out of range exactly on a ciphertext of one block, an
   * initialisation vector with nothing after it.  Two whole blocks or more are always processed.
   */
  lemma DecryptPanicsIff(aes: Octets -> Cipher, key: Octets, src: Octets)
    requires KeySizeOk(key) && Permutation(aes(key))
    ensures DecryptedMessage(aes, key, src) == Failure(IndexPanic) <==> |src| == 16
  {
    if |src| > 16 && (|src| - 16) % 16 == 0 {
      UnpadNeverPanics(CbcPlain(aes, key, src).value);
    }
  }

  // -------------------------------------------------------- the cipher text

  /** The j-th block of a text. */
  function Block(text: Octets, j: nat): Octets
    requires 16 * (j + 1) <= |text|
  {
    text[16 * j..16 * j + 16]
  }

  /** Each cipher block is the encryption of the plain block combined with the cipher block before it. */
  lemma {:induction false} CbcChains(c: Cipher, iv: Octets, plain: Octets, j: nat)
    requires |iv| == 16 && |plain| % 16 == 0 && 16 * (j + 1) <= |plain|
    requires forall b: Octets :: |b| == 16 ==> |c.encrypt(b)| == 16
    ensures var text := iv + CbcEncrypt(c, iv, plain);
            |text| == 16 + |plain| && Block(text, j + 1) == c.encrypt(Xor(Block(text, j), Block(plain, j)))
    decreases j
  {
    var block := c.encrypt(Xor(iv, plain[..16]));
    var tail := CbcEncrypt(c, block, plain[16..]);
    var text := iv + (block + tail);
    if j == 0 {
      assert Block(text, 0) == iv && Block(text, 1) == block && Block(plain, 0) == plain[..16];
    } else {
      CbcChains(c, block, plain[16..], j - 1);
      assert Block(text, j) == Block(block + tail, j - 1);
      assert Block(text, j + 1) == Block(block + tail, j);
      assert Block(plain, j) == Block(plain[16..], j - 1);
    }
  }

  /** Keys of 16, 24 or 32 bytes only; the message is the vector followed by the chained blocks of the padded text. */
  lemma MessageLayout(aes: Octets -> Cipher, key: Octets, plain: Octets, iv: Octets)
    requires |iv| == 16 && Permutation(aes(key))
    ensures EncryptedMessage(aes, key, plain, iv).Success? <==> |key| in {16, 24, 32}
    ensures EncryptedMessage(aes, key, plain, iv).Success? ==>
              var text, padded := EncryptedMessage(aes, key, plain, iv).value, Pad(plain);
              && |text| == 16 + |padded| && text[..16] == iv
              && forall j: nat :: 16 * (j + 1) <= |padded| ==>
                   Block(text, j + 1) == aes(key).encrypt(Xor(Block(text, j), Block(padded, j)))
  {
    if KeySizeOk(key) {
      var text, padded := iv + CbcEncrypt(aes(key), iv, Pad(plain)), Pad(plain);
      forall j: nat | 16 * (j + 1) <= |padded| ensures Block(text, j + 1) == aes(key).encrypt(Xor(Block(text, j), Block(padded, j))) {
        CbcChains(aes(key), iv, padded, j);
      }
    }
  }

  /** Decryption accepts exactly what encryption under the same key makes of the result, with the first block for vector. */
  lemma DecryptIff(aes: Octets -> Cipher, key: Octets, src: Octets, r: Octets)
    requires Permutation(aes(key)) && Onto(aes(key))
    ensures DecryptedMessage(aes, key, src) == Success(r) <==>
            |src| >= 16 && EncryptedMessage(aes, key, r, src[..16]) == Success(src)
  {
    if |src| >= 16 && EncryptedMessage(aes, key, r, src[..16]) == Success(src) {
      MessageRoundTrip(aes, key, r, src[..16]);
    }
    if DecryptedMessage(aes, key, src) == Success(r) { DecryptedIsImage(aes, key, src, r); }
  }

  lemma DecryptedIsImage(aes: Octets -> Cipher, key: Octets, src: Octets, r: Octets)
    requires Permutation(aes(key)) && Onto(aes(key)) && DecryptedMessage(aes, key, src) == Success(r)
    ensures |src| >= 16 && EncryptedMessage(aes, key, r, src[..16]) == Success(src)
  {
    var iv, cipher := src[..16], src[16..];
    ImageOfPadded(aes(key), iv, cipher, r);
    assert src == iv + cipher;
  }

  lemma ImageOfPadded(c: Cipher, iv: Octets, cipher: Octets, r: Octets)
    requires Permutation(c) && Onto(c) && |iv| == 16 && |cipher| % 16 == 0
    requires Unpadded(CbcDecrypt(c, iv, cipher)) == Success(r)
    ensures CbcEncrypt(c, iv, Pad(r)) == cipher
  {
    CbcRoundTripBack(c, iv, cipher);
    UnpadIff(CbcDecrypt(c, iv, cipher), r);
  }
}
