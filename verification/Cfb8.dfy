/**
 * AES-128 in CFB8 mode, the `cfb8::Encryptor<aes::Aes128>` the packet
 * encoder keeps. CFB8 works one byte at a time (its block size is 1): the
 * first byte of AES(key, register) is XORed onto the plaintext byte, and the
 * ciphertext byte is shifted into the 16-byte register.
 *
 * The AES block function is a parameter: `Keystream(key, register)` is the
 * first byte of the register encrypted under the key.
 */
module Cfb8 {
  import opened Bytes

  const BlockLength: nat := 16

  type Keystream = (seq<byte>, seq<byte>) -> byte

  datatype State = State(key: seq<byte>, register: seq<byte>)

  predicate Valid(st: State)
  {
    |st.key| == BlockLength && |st.register| == BlockLength
  }

  /** `Cipher::new_from_slices(key, iv)`. */
  function New(key: seq<byte>, iv: seq<byte>): (st: State)
    requires |key| == BlockLength && |iv| == BlockLength
    ensures Valid(st)
    ensures st.key == key && st.register == iv
  {
    State(key, iv)
  }

  /** Bitwise exclusive or, one bit at a time from the least significant. */
  function XorNat(a: nat, b: nat): nat
    decreases a + b
  {
    if a == 0 && b == 0 then 0
    else (if a % 2 == b % 2 then 0 else 1) + 2 * XorNat(a / 2, b / 2)
  }

  function Pow2(n: nat): (p: nat)
    ensures p >= 1
  {
    if n == 0 then 1 else 2 * Pow2(n - 1)
  }

  lemma {:induction false} XorNatBound(a: nat, b: nat, n: nat)
    requires a < Pow2(n) && b < Pow2(n)
    ensures XorNat(a, b) < Pow2(n)
    decreases a + b
  {
    if a != 0 || b != 0 {
      assert n > 0;
      XorNatBound(a / 2, b / 2, n - 1);
    }
  }

  /** `^` on two bytes. */
  function Xor(a: byte, b: byte): (c: byte)
  {
    assert Pow2(8) == 256;
    XorNatBound(a, b, 8);
    XorNat(a, b)
  }

  lemma BitAndHalf(bit: nat, y: nat)
    requires bit < 2
    ensures (bit + 2 * y) % 2 == bit && (bit + 2 * y) / 2 == y
  {
  }

  lemma Halves(a: nat)
    ensures a == a % 2 + 2 * (a / 2) && a % 2 < 2
  {
  }

  /** XOR with the same value twice is the identity, bit by bit. */
  lemma {:induction false} XorNatCancel(a: nat, k: nat)
    ensures XorNat(XorNat(a, k), k) == a
    decreases a + k
  {
    if a != 0 || k != 0 {
      var bit := if a % 2 == k % 2 then 0 else 1;
      var high := XorNat(a / 2, k / 2);
      var c := bit + 2 * high;
      assert XorNat(a, k) == c;
      BitAndHalf(bit, high);
      XorNatCancel(a / 2, k / 2);
      Halves(a);
      if c != 0 || k != 0 {
        assert XorNat(c, k) == (if c % 2 == k % 2 then 0 else 1) + 2 * XorNat(c / 2, k / 2);
      }
    }
  }

  lemma XorCancel(a: byte, k: byte)
    ensures Xor(Xor(a, k), k) == a
  {
    XorNatCancel(a, k);
  }

  /** Feeds a ciphertext byte back into the register. */
  function Feed(st: State, c: byte): (st': State)
    requires Valid(st)
    ensures Valid(st') && st'.key == st.key
    ensures st'.register[..BlockLength - 1] == st.register[1..]
    ensures st'.register[BlockLength - 1] == c
  {
    State(st.key, st.register[1..] + [c])
  }

  /** Encrypting one byte: the block `encrypt_block_mut` handles for a chunk of length 1. */
  function EncryptByte(ks: Keystream, st: State, p: byte): (r: (State, byte))
    requires Valid(st)
    ensures Valid(r.0) && r.0 == Feed(st, r.1)
  {
    var c := Xor(p, ks(st.key, st.register));
    (Feed(st, c), c)
  }

  /** Decrypting one byte: the receiving side's inverse step. */
  function DecryptByte(ks: Keystream, st: State, c: byte): (r: (State, byte))
    requires Valid(st)
    ensures Valid(r.0) && r.0 == Feed(st, c)
  {
    (Feed(st, c), Xor(c, ks(st.key, st.register)))
  }

  /** A byte string encrypted byte by byte from `st`: the final state and the ciphertext. */
  function Encrypt(ks: Keystream, st: State, s: seq<byte>): (r: (State, seq<byte>))
    requires Valid(st)
    ensures Valid(r.0) && |r.1| == |s|
    decreases |s|
  {
    if s == [] then (st, [])
    else
      var prev := Encrypt(ks, st, s[..|s| - 1]);
      var step := EncryptByte(ks, prev.0, s[|s| - 1]);
      (step.0, prev.1 + [step.1])
  }

  function Decrypt(ks: Keystream, st: State, s: seq<byte>): (r: (State, seq<byte>))
    requires Valid(st)
    ensures Valid(r.0) && |r.1| == |s|
    decreases |s|
  {
    if s == [] then (st, [])
    else
      var prev := Decrypt(ks, st, s[..|s| - 1]);
      var step := DecryptByte(ks, prev.0, s[|s| - 1]);
      (step.0, prev.1 + [step.1])
  }

  /**
   * The cipher is a stream: encrypting `a` and then, from the state reached,
   * `b`, is encrypting `a + b` at once. Successive `take` calls on one
   * encoder therefore encrypt the connection's byte stream as a whole.
   */
  lemma {:induction false} EncryptConcat(ks: Keystream, st: State, a: seq<byte>, b: seq<byte>)
    requires Valid(st)
    ensures Encrypt(ks, st, a + b).0 == Encrypt(ks, Encrypt(ks, st, a).0, b).0
    ensures Encrypt(ks, st, a + b).1 == Encrypt(ks, st, a).1 + Encrypt(ks, Encrypt(ks, st, a).0, b).1
    decreases |b|
  {
    if b == [] {
      assert a + b == a;
    } else {
      var b' := b[..|b| - 1];
      assert (a + b)[..|a + b| - 1] == a + b';
      assert (a + b)[|a + b| - 1] == b[|b| - 1];
      EncryptConcat(ks, st, a, b');
    }
  }

  /**
   * Encryption and decryption from the same state agree on the register
   * (both shift in the ciphertext), and decryption gives the plaintext back.
   */
  lemma {:induction false} DecryptEncrypt(ks: Keystream, st: State, s: seq<byte>)
    requires Valid(st)
    ensures Decrypt(ks, st, Encrypt(ks, st, s).1) == (Encrypt(ks, st, s).0, s)
    decreases |s|
  {
    if s != [] {
      var s' := s[..|s| - 1];
      var e := Encrypt(ks, st, s);
      var e' := Encrypt(ks, st, s');
      DecryptEncrypt(ks, st, s');
      assert e.1[..|e.1| - 1] == e'.1;
      XorCancel(s[|s| - 1], ks(e'.0.key, e'.0.register));
      assert s' + [s[|s| - 1]] == s;
    }
  }
}
