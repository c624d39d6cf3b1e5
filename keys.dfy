/**
 * Keys of the rate limiter and the djb2 hash that places them in buckets.
 *
 * A key is the byte content of a C string: every byte before the terminating NUL,
 * so it never contains a zero byte.
 */
module KeyHash {

  /** Number of buckets in the registry (HASH_SIZE). */
  const HashSize: nat := 100

  /** Size of a node's user-id buffer (MAX_USER_ID); at most MaxUserId - 1 bytes of a key are kept. */
  const MaxUserId: nat := 50

  /** 2^32: the modulus of C's `unsigned int` arithmetic. */
  const Word: int := 0x1_0000_0000

  newtype byte = b: int | 0 <= b < 256

  type Key = k: seq<byte> | forall i :: 0 <= i < |k| ==> k[i] != 0

  /** The value `int c = *str++` reads for byte `b` when `char` is signed (8-bit two's complement). */
  function SignedChar(b: byte): (c: int)
    ensures -128 <= c < 128
    ensures c % 256 == b as int
  {
    if b < 128 then b as int else b as int - 256
  }

  /**
   * The `unsigned int` accumulator of `hash` after it has consumed the bytes of `s`:
   * starts at 5381 and steps `h := (h << 5) + h + c`, i.e. h * 33 + c modulo 2^32.
   */
  function Djb2(s: seq<byte>): (h: int)
    ensures 0 <= h < Word
    decreases |s|
  {
    if s == [] then 5381
    else (Djb2(s[..|s| - 1]) * 33 + SignedChar(s[|s| - 1])) % Word
  }

  /** The bucket `hash` selects for a key. */
  function Bucket(key: Key): (b: nat)
    ensures b < HashSize
  {
    Djb2(key) % HashSize
  }

  /** The loop of `hash`: runs the accumulator over the key's bytes and reduces it modulo HashSize. */
  method Hash(key: Key) returns (index: nat)
    ensures index == Bucket(key)
    ensures index < HashSize
  {
    var h := 5381;
    var i := 0;
    while i < |key|
      invariant 0 <= i <= |key|
      invariant h == Djb2(key[..i])
    {
      assert key[..i + 1][..i] == key[..i];
      // (h << 5) + h + c, with every operation reduced modulo 2^32
      h := (h * 33 + SignedChar(key[i])) % Word;
      i := i + 1;
    }
    assert key[..i] == key;
    index := h % HashSize;
  }

  /**
   * The id a new node stores: `strncpy` copies at most MaxUserId - 1 bytes and the last
   * byte of the buffer is forced to NUL, so longer keys lose their tail.
   */
  function Truncate(key: Key): (id: Key)
    ensures |id| < MaxUserId && |id| <= |key|
    ensures id == key[..|id|]
    ensures |key| < MaxUserId <==> id == key
    ensures |key| >= MaxUserId ==> |id| == MaxUserId - 1
  {
    if |key| < MaxUserId then key else key[..MaxUserId - 1]
  }
}
