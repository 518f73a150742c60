/** src/bitset.c: a fixed-size set of bits in bytes. Bits after the last stay zero. */
module Bitsets {
  import opened Allocation
  import opened BitsetBytes
  import opened BitsetPacking

  const BITSET_NPOS := -1  // for SIZE_MAX, no position

  class Bitset {
    var size: nat
    var bits: array<bv8>
    ghost var contents: seq<bool>

    ghost predicate Valid()
      reads this, bits
    {
      size == |contents| && Packs(bits[..], contents)
    }

    constructor (size: nat)
      ensures Valid() && this.size == size && contents == seq(size, _ => false) && fresh(bits)
    {
      this.size := size;
      bits := new bv8[NumBytes(size)](_ => 0);
      contents := All(size, false);
      new;
      PackAll(bits[..], size, false);
    }

    // bitset_clear_unused_tail_bits; s is what the bits in use stand for
    method ClearUnusedTailBits(ghost s: seq<bool>)
      requires |s| == size && Agrees(bits[..], s)
      modifies bits
      ensures Packs(bits[..], s)
    {
      TailCleared(bits[..], s);
      var numBytes := NumBytes(size);
      if numBytes == 0 || size % CHAR_BIT == 0 {
        return;
      }
      WriteByte(numBytes - 1, bits[numBytes - 1] & LastMask(size));
    }

    method WriteByte(i: nat, b: bv8)
      requires i < bits.Length
      modifies bits
      ensures bits[..] == old(bits[..])[i := b]
    {
      bits[i] := b;
    }

    // Keeps the old bits as far as there is room, and adds only zeros.
    method Resize(n: nat, plenty: bool) returns (ok: bool)
      requires Valid()
      modifies this
      ensures Valid()
      ensures ok ==> size == n && fresh(bits)
      ensures ok ==> forall i | 0 <= i < n :: contents[i] == (i < |old(contents)| && old(contents)[i])
      ensures !ok ==> contents == old(contents) && bits == old(bits)
      ensures plenty || n == 0 ==> ok
    {
      ok := true;
      if NumBytes(n) != 0 {
        ok := Attempt(plenty);
        if !ok {
          return;
        }
      }
      var newBits := Reallocated(n);
      ghost var s := Resized(contents, n);
      PackResize(bits[..], newBits[..], contents, n);
      bits, size := newBits, n;
      ClearUnusedTailBits(s);
      contents := s;
    }

    // realloc and memset
    method Reallocated(n: nat) returns (newBits: array<bv8>)
      ensures fresh(newBits) && newBits.Length == NumBytes(n)
      ensures forall i | 0 <= i < newBits.Length :: newBits[i] == if i < bits.Length then bits[i] else 0
    {
      newBits := new bv8[NumBytes(n)];
      for i := 0 to newBits.Length
        invariant forall j | 0 <= j < i :: newBits[j] == if j < bits.Length then bits[j] else 0
      {
        newBits[i] := if i < bits.Length then bits[i] else 0;
      }
    }

    method Get(pos: nat) returns (b: bool)
      requires Valid() && pos < size
      ensures b == contents[pos]
    {
      PacksByte(bits[..], contents, pos);
      b := bits[pos / CHAR_BIT] & Mask(pos % CHAR_BIT) != 0;
    }

    method Set(pos: nat, value: bool)
      requires Valid() && pos < size
      modifies bits, `contents
      ensures Valid() && contents == old(contents)[pos := value]
    {
      if value {
        SetTrue(pos);
      } else {
        Reset(pos);
      }
    }

    method SetTrue(pos: nat)
      requires Valid() && pos < size
      modifies bits, `contents
      ensures Valid() && contents == old(contents)[pos := true]
    {
      PackSet(bits[..], contents, pos);
      var i, mask := pos / CHAR_BIT, Mask(pos % CHAR_BIT);
      contents := contents[pos := true];
      WriteByte(i, bits[i] | mask);
    }

    method Reset(pos: nat)
      requires Valid() && pos < size
      modifies bits, `contents
      ensures Valid() && contents == old(contents)[pos := false]
    {
      PackReset(bits[..], contents, pos);
      var i, mask := pos / CHAR_BIT, Mask(pos % CHAR_BIT);
      contents := contents[pos := false];
      WriteByte(i, bits[i] & !mask);
    }

    method Flip(pos: nat)
      requires Valid() && pos < size
      modifies bits, `contents
      ensures Valid() && contents == old(contents)[pos := !old(contents)[pos]]
    {
      PackFlip(bits[..], contents, pos);
      var i, mask := pos / CHAR_BIT, Mask(pos % CHAR_BIT);
      contents := contents[pos := !contents[pos]];
      WriteByte(i, bits[i] ^ mask);
    }

    // memset of the whole storage
    method Fill(byte: bv8)
      modifies bits
      ensures forall i | 0 <= i < bits.Length :: bits[i] == byte
    {
      for i := 0 to bits.Length
        invariant forall j | 0 <= j < i :: bits[j] == byte
      {
        bits[i] := byte;
      }
    }

    method SetAll()
      requires Valid()
      modifies bits, `contents
      ensures Valid() && contents == seq(size, _ => true)
    {
      contents := All(size, true);
      Fill(UCHAR_MAX);
      PackAll(bits[..], size, true);
      ClearUnusedTailBits(All(size, true));
    }

    method ResetAll()
      requires Valid()
      modifies bits, `contents
      ensures Valid() && contents == seq(size, _ => false)
    {
      contents := All(size, false);
      Fill(0);
      PackAll(bits[..], size, false);
    }

    method FlipAll()
      requires Valid()
      modifies bits, `contents
      ensures Valid() && size == old(size) && forall i | 0 <= i < size :: contents[i] == !old(contents)[i]
    {
      ghost var before, s := bits[..], contents;
      contents := Negated(s);
      InvertBytes();
      PackNot(before, bits[..], s);
      ClearUnusedTailBits(Negated(s));
    }

    method InvertBytes()
      modifies bits
      ensures forall i | 0 <= i < bits.Length :: bits[i] == !old(bits[i])
    {
      for i := 0 to bits.Length
        invariant forall j | 0 <= j < i :: bits[j] == !old(bits[j])
        invariant forall j | i <= j < bits.Length :: bits[j] == old(bits[j])
      {
        bits[i] := !bits[i];
      }
    }

    // and, or, xor with a set of the same size
    method Combine(op: Op, src: Bitset)
      requires Valid() && src.Valid() && size == src.size
      modifies bits, `contents
      ensures Valid() && size == old(size)
      ensures op == And ==> forall i | 0 <= i < size :: contents[i] == (old(contents)[i] && old(src.contents)[i])
      ensures op == Or ==> forall i | 0 <= i < size :: contents[i] == (old(contents)[i] || old(src.contents)[i])
      ensures op == Xor ==> forall i | 0 <= i < size :: contents[i] == (old(contents)[i] != old(src.contents)[i])
    {
      ghost var a, b, s, t := bits[..], src.bits[..], contents, src.contents;
      contents := Zip(op, s, t);
      CombineBytes(op, src.bits);
      PackOp(op, a, b, bits[..], s, t);
      ClearUnusedTailBits(Zip(op, s, t));
    }

    method CombineBytes(op: Op, src: array<bv8>)
      requires src.Length == bits.Length
      modifies bits
      ensures forall i | 0 <= i < bits.Length :: bits[i] == OnByte(op, old(bits[i]), old(src[i]))
    {
      for i := 0 to bits.Length
        invariant forall j | 0 <= j < i :: bits[j] == OnByte(op, old(bits[j]), old(src[j]))
        invariant forall j | i <= j < bits.Length :: bits[j] == old(bits[j]) && src[j] == old(src[j])
      {
        bits[i] := OnByte(op, bits[i], src[i]);
      }
    }

    // compares the sizes and the raw bytes
    method Equal(other: Bitset) returns (same: bool)
      requires Valid() && other.Valid()
      ensures same <==> contents == other.contents
    {
      if size != other.size {
        return false;
      }
      PacksUnique(bits[..], other.bits[..], contents, other.contents);
      for i := 0 to bits.Length
        invariant bits[..i] == other.bits[..i]
      {
        if bits[i] != other.bits[i] {
          assert bits[..][i] != other.bits[..][i];
          return false;
        }
      }
      assert bits[..bits.Length] == bits[..] && other.bits[..bits.Length] == other.bits[..];
      return true;
    }

    static method PopCountByte(byte: bv8) returns (count: nat)
      ensures count == Ones(byte)
    {
      var b := byte;
      count := 0;
      while b != 0
        invariant count + Ones(b) == Ones(byte)
        decreases Ones(b)
      {
        DropLowest(b);
        b := b & (b - 1);
        count := count + 1;
      }
    }

    // the number of elements that are true
    method CountSet() returns (count: nat)
      requires Valid()
      ensures count == |set i | 0 <= i < size && contents[i]|
    {
      count := 0;
      var fullBytes, numBytes := size / CHAR_BIT, NumBytes(size);
      for i := 0 to fullBytes
        invariant count == Count(contents, 8 * i)
      {
        CountByte(bits[..], contents, i, bits[i], 8);
        var n := PopCountByte(bits[i]);
        count := count + n;
      }
      if numBytes != fullBytes {
        var last := bits[numBytes - 1] & LastMask(size);
        CountLast(bits[..], contents);
        var n := PopCountByte(last);
        count := count + n;
      }
      CountIsCardinality(contents, size);
    }

    // Are all elements true?
    method AllSet() returns (all: bool)
      requires Valid()
      ensures all <==> forall i | 0 <= i < size :: contents[i]
    {
      var fullBytes, numBytes := size / CHAR_BIT, NumBytes(size);
      for i := 0 to fullBytes
        invariant forall j | 0 <= j < 8 * i :: contents[j]
      {
        FullByte(bits[..], contents, i);
        if bits[i] != UCHAR_MAX {
          return false;
        }
      }
      if numBytes == fullBytes {
        return true;
      }
      FullLast(bits[..], contents);
      all := bits[numBytes - 1] & LastMask(size) == LastMask(size);
    }

    // Is any element true?
    method AnySet() returns (any: bool)
      requires Valid()
      ensures any <==> exists i :: 0 <= i < size && contents[i]
    {
      var fullBytes, numBytes := size / CHAR_BIT, NumBytes(size);
      for i := 0 to fullBytes
        invariant forall j | 0 <= j < 8 * i :: !contents[j]
      {
        EmptyByte(bits[..], contents, i);
        if bits[i] != 0 {
          return true;
        }
      }
      if numBytes == fullBytes {
        return false;
      }
      EmptyLast(bits[..], contents);
      any := bits[numBytes - 1] & LastMask(size) != 0;
    }

    method FindFrom(start: nat, value: bool) returns (pos: int)
      requires Valid()
      ensures pos == BITSET_NPOS || (start <= pos < size && contents[pos] == value)
      ensures forall i | start <= i < (if pos == BITSET_NPOS then size else pos) :: contents[i] != value
    {
      if start >= size {
        return BITSET_NPOS;
      }
      for i := start to size
        invariant forall j | start <= j < i :: contents[j] != value
      {
        var b := Get(i);
        if b == value {
          return i;
        }
      }
      return BITSET_NPOS;
    }

    method ToString() returns (text: string)
      requires Valid()
      ensures text == Show(contents)
      ensures |text| == size && forall j | 0 <= j < size :: text[size - 1 - j] == if contents[j] then '1' else '0'
    {
      var buf := new char[size];
      for i := 0 to size
        invariant forall j | 0 <= j < i :: buf[size - 1 - j] == if contents[j] then '1' else '0'
      {
        var b := Get(i);
        buf[size - 1 - i] := if b then '1' else '0';
      }
      forall j | 0 <= j < size ensures buf[j] == Show(contents)[j] {
        assert buf[size - 1 - (size - 1 - j)] == if contents[size - 1 - j] then '1' else '0';
      }
      text := buf[..];
    }

    // Takes a text of just as many digits 0 and 1; any other text changes nothing.
    method FromString(text: string) returns (ok: bool)
      requires Valid()
      modifies bits, `contents
      ensures Valid() && size == old(size)
      ensures ok <==> |text| == size && forall i | 0 <= i < |text| :: text[i] == '0' || text[i] == '1'
      ensures contents == if ok then Parse(text) else old(contents)
      ensures ok ==> forall j | 0 <= j < size :: contents[j] <==> text[size - 1 - j] == '1'
    {
      if |text| != size {
        return false;
      }
      for i := 0 to |text|
        invariant Digits(text[..i])
        invariant unchanged(this) && unchanged(bits)
      {
        if text[i] != '0' && text[i] != '1' {
          return false;
        }
        assert Digits(text[..i + 1]);
      }
      assert text[..|text|] == text;
      ResetAll();
      for i := 0 to |text|
        invariant Valid() && size == |text|
        invariant forall j | 0 <= j < size :: contents[j] == (j >= size - i && text[size - 1 - j] == '1')
      {
        if text[i] == '1' {
          Set(|text| - 1 - i, true);
        }
      }
      assert contents == Parse(text);
      return true;
    }

    // Takes over the size and the bits of src; a failure changes nothing.
    method CopyFrom(src: Bitset, plenty: bool) returns (ok: bool)
      requires Valid() && src.Valid()
      modifies this
      ensures Valid()
      ensures contents == if ok then old(src.contents) else old(contents)
      ensures ok && this != src ==> fresh(bits)
      ensures plenty ==> ok
    {
      if this == src {
        return true;
      }
      ok := Resize(src.size, plenty);
      if !ok {
        return;
      }
      CopyBytes(src);
      contents := src.contents;
    }

    method CopyBytes(src: Bitset)
      requires bits != src.bits && bits.Length == src.bits.Length
      modifies bits
      ensures bits[..] == src.bits[..]
    {
      for i := 0 to bits.Length
        invariant bits[..i] == src.bits[..i]
      {
        bits[i] := src.bits[i];
      }
    }
  }
}
