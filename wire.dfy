/**
  Big-endian 64-bit words and the growable output buffer: the parts of the
  `byteorder` and `bytes` crates that the codec relies on.
 */
module Wire {
  import opened Results

  /** An octet (`u8`). */
  type Byte = b: int | 0 <= b < 256

  /** 2^64, one more than the largest `u64`. */
  const U64_LIMIT: int := 0x1_0000_0000_0000_0000

  /** An unsigned 64-bit integer (`u64`). */
  type U64 = n: int | 0 <= n < 0x1_0000_0000_0000_0000

  /** The number of bytes `read_u64` consumes and `put_u64` produces. */
  const WORD_SIZE: nat := 8

  /** The kind of I/O error a cursor read reports. */
  datatype IoError = UnexpectedEof

  function Pow256(k: nat): (p: nat)
    ensures p >= 1
  {
    if k == 0 then 1 else 256 * Pow256(k - 1)
  }

  lemma WordLimit()
    ensures Pow256(WORD_SIZE) == U64_LIMIT
  {
  }

  /** The `k` low-order bytes of `n`, most significant first. */
  function ToBe(n: nat, k: nat): (bs: seq<Byte>)
    ensures |bs| == k
  {
    if k == 0 then [] else ToBe(n / 256, k - 1) + [n % 256]
  }

  /** The number a big-endian byte string denotes. */
  function FromBe(bs: seq<Byte>): (n: nat)
    ensures n < Pow256(|bs|)
  {
    if bs == [] then 0 else FromBe(bs[..|bs| - 1]) * 256 + bs[|bs| - 1]
  }

  /** Reading back `k` big-endian bytes yields the number written. */
  lemma {:induction false} FromBeToBe(n: nat, k: nat)
    requires n < Pow256(k)
    ensures FromBe(ToBe(n, k)) == n
  {
    if k > 0 {
      var bs := ToBe(n, k);
      assert bs[..k - 1] == ToBe(n / 256, k - 1);
      FromBeToBe(n / 256, k - 1);
    }
  }

  /** Writing back the number a byte string denotes reproduces the string. */
  lemma {:induction false} ToBeFromBe(bs: seq<Byte>)
    ensures ToBe(FromBe(bs), |bs|) == bs
  {
    if bs != [] {
      var init := bs[..|bs| - 1];
      assert FromBe(bs) / 256 == FromBe(init);
      ToBeFromBe(init);
      assert bs == init + [bs[|bs| - 1]];
    }
  }

  /** `u64::to_be_bytes`. */
  function BeBytes(n: U64): seq<Byte>
  {
    ToBe(n, WORD_SIZE)
  }

  /** The eight bytes of a word determine it. */
  lemma BeBytesInverse(n: U64)
    ensures |BeBytes(n)| == WORD_SIZE && FromBe(BeBytes(n)) == n
  {
    WordLimit();
    FromBeToBe(n, WORD_SIZE);
  }

  /**
    `ReadBytesExt::read_u64::<BigEndian>` on a slice cursor: takes the next
    eight bytes as a word and returns the rest of the slice, or fails with
    `UnexpectedEof` when fewer than eight bytes remain.
   */
  function ReadU64(cursor: seq<Byte>): (r: Result<(U64, seq<Byte>), IoError>)
    ensures r.Ok? <==> |cursor| >= WORD_SIZE
    ensures r.Ok? ==> BeBytes(r.value.0) + r.value.1 == cursor
  {
    if |cursor| < WORD_SIZE then Err(UnexpectedEof)
    else
      WordLimit();
      ToBeFromBe(cursor[..WORD_SIZE]);
      assert cursor == cursor[..WORD_SIZE] + cursor[WORD_SIZE..];
      Ok((FromBe(cursor[..WORD_SIZE]), cursor[WORD_SIZE..]))
  }

  /** The growable byte buffer `BytesMut`, seen through the `BufMut` writes. */
  class BytesMut {
    var bytes: seq<Byte>

    constructor ()
      ensures bytes == []
    {
      bytes := [];
    }

    /** `BufMut::put_u64`: appends the word in big-endian order. */
    method PutU64(n: U64)
      modifies this
      ensures bytes == old(bytes) + BeBytes(n)
    {
      bytes := bytes + BeBytes(n);
    }

    /** `BufMut::put_slice`: appends the slice. */
    method PutSlice(src: seq<Byte>)
      modifies this
      ensures bytes == old(bytes) + src
    {
      bytes := bytes + src;
    }
  }
}
