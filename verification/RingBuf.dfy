/** The bounded byte queue under the radio link: a ring of a power-of-two size. */
module RingBuffer {
  import opened Bytes
  import opened SlinkProtocol

  /** The sizes the library allows: powers of two up to 128. */
  predicate RingSize(size: nat) {
    size == 1 || size == 2 || size == 4 || size == 8 || size == 16 || size == 32 || size == 64 || size == 128
  }

  /** The code masks with `size - 1`; on 32-bit two's complement values that is the remainder. */
  lemma MaskIsMod(x: bv32)
    ensures x & 127 == x % 128 && x & 63 == x % 64 && x & 31 == x % 32 && x & 15 == x % 16
    ensures x & 7 == x % 8 && x & 3 == x % 4 && x & 1 == x % 2 && x & 0 == x % 1
  {
  }

  lemma DivModUnique(x: int, size: nat, q: int, r: int)
    requires size > 0 && x == q * size + r && 0 <= r < size
    ensures x % size == r
  {
    var k := x / size - q;
    assert k * size == r - x % size;
    Multiple(k, size);
  }

  lemma Multiple(k: int, size: nat)
    ensures k >= 1 ==> k * size >= size
    ensures k <= -1 ==> k * size <= 0 - size
  {
  }

  /** Remainders of the values that occur: indices, one past an index, and differences of two. */
  lemma ModSmall(x: int, size: nat)
    requires 0 - size < x < 2 * size
    ensures x % size == if x < 0 then x + size else if x < size then x else x - size
  {
    if x < 0 {
      DivModUnique(x, size, -1, x + size);
    } else if x < size {
      DivModUnique(x, size, 0, x);
    } else {
      DivModUnique(x, size, 1, x - size);
    }
  }

  /** The slot `i` places behind slot `get`. */
  function Slot(get: nat, i: nat, size: nat): (k: nat)
    requires get < size && i < size
    ensures k < size
  {
    if get + i < size then get + i else get + i - size
  }

  function RingSeq(data: seq<Byte>, get: nat, n: nat): (s: seq<Byte>)
    requires get < |data| && n <= |data|
    ensures |s| == n && forall i :: 0 <= i < n ==> s[i] == data[Slot(get, i, |data|)]
  {
    seq(n, i requires 0 <= i < n => data[Slot(get, i, |data|)])
  }

  class RingBuf {
    const data: array<Byte>
    const size: nat
    var putPtr: nat
    var getPtr: nat

    ghost predicate Valid()
      reads this
    {
      RingSize(size) && data.Length == size && putPtr < size && getPtr < size
    }

    /** (put_ptr - get_ptr) & mask */
    function Elements(): (n: nat)
      requires Valid()
      reads this
      ensures n < size
    {
      ModSmall(putPtr - getPtr, size);
      (putPtr - getPtr) % size
    }

    ghost function Contents(): (s: seq<Byte>)
      requires Valid()
      reads this, data
      ensures |s| == Elements()
    {
      RingSeq(data[..], getPtr, Elements())
    }

    constructor (size: nat)
      requires RingSize(size)
      ensures Valid() && fresh(data) && this.size == size && Contents() == []
    {
      this.size := size;
      data := new Byte[size];
      putPtr, getPtr := 0, 0;
    }

    /** Inserts a byte; the ring holds one byte less than its size. */
    method Put(c: Byte) returns (r: int)
      requires Valid()
      modifies this`putPtr, data
      ensures Valid()
      ensures if |old(Contents())| < size - 1
        then r == 1 && Contents() == old(Contents()) + [c]
        else r == 0 && Contents() == old(Contents())
    {
      hide RingSize;
      ModSmall(putPtr - getPtr, size);
      if (putPtr - getPtr) % size == size - 1 {
        return 0;
      }
      ghost var n := Elements();
      ModSmall(putPtr + 1, size);
      data[putPtr] := c;
      putPtr := (putPtr + 1) % size;
      ModSmall(putPtr - getPtr, size);
      assert Elements() == n + 1;
      assert Contents() == old(Contents()) + [c];
      return 1;
    }

    /** Removes the oldest byte; -1 if there is none. */
    method Get() returns (c: int)
      requires Valid()
      modifies this`getPtr
      ensures Valid()
      ensures if old(Contents()) == []
        then c == -1 && Contents() == []
        else c == old(Contents())[0] && Contents() == old(Contents())[1..]
    {
      hide RingSize;
      ModSmall(putPtr - getPtr, size);
      if (putPtr - getPtr) % size > 0 {
        c := data[getPtr];
        ModSmall(getPtr + 1, size);
        getPtr := (getPtr + 1) % size;
        ModSmall(putPtr - getPtr, size);
        assert Contents() == old(Contents())[1..];
      } else {
        return -1;
      }
    }

    method Size() returns (n: nat)
      requires Valid()
      ensures n == size
    {
      n := (size - 1) + 1;
    }
  }

  /** Inserts bytes of an array one by one, ignoring refusals: what does not fit is lost. */
  method PutAll(r: RingBuf, src: array<Byte>, from: nat, len: nat)
    requires r.Valid() && from + len <= src.Length && src != r.data
    modifies r`putPtr, r.data
    ensures r.Valid()
    ensures var was := old(r.Contents());
      && |was| <= r.size - 1
      && r.Contents() == was + src[from..from + len][..Min(len, r.size - 1 - |was|)]
  {
    hide RingSeq, RingSize;
    ghost var data, was := src[from..from + len], r.Contents();
    var i := 0;
    while i < len
      invariant 0 <= i <= len && r.Valid()
      invariant r.Contents() == was + data[..Min(i, r.size - 1 - |was|)]
    {
      assert src[from + i] == data[i];
      assert i < r.size - 1 - |was| ==> data[..i + 1] == data[..i] + [data[i]];
      var _ := r.Put(src[from + i]);
      i := i + 1;
    }
  }

  /** Removes up to `max` bytes into an array, from index 2 on, keeping their number in index 0. */
  method TakeUpTo(r: RingBuf, dst: array<Byte>, max: nat) returns (k: nat)
    requires r.Valid() && dst != r.data && 1 <= max && max + 2 <= dst.Length && max < 256
    requires dst[0] == 0
    modifies r`getPtr, dst
    ensures r.Valid() && k == Min(max, |old(r.Contents())|)
    ensures r.Contents() == old(r.Contents())[k..]
    ensures dst[0] == k && dst[1] == old(dst[1]) && dst[2..k + 2] == old(r.Contents())[..k]
  {
    ghost var all := r.Contents();
    k := 0;
    while r.Elements() != 0
      invariant r.Valid() && k < max && k <= |all|
      invariant r.Contents() == all[k..]
      invariant dst[0] == k && dst[1] == old(dst[1]) && dst[2..k + 2] == all[..k]
      decreases |all| - k
    {
      var c := r.Get();
      dst[2 + k] := c;
      k := k + 1;
      dst[0] := k;
      assert all[..k] == all[..k - 1] + [all[k - 1]];
      if k >= max {
        break;
      }
    }
  }
}
