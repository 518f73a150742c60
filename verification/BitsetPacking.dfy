/** What packed bytes stand for: the sequence of booleans, its operations, its count, and its
    text. */
module BitsetPacking {
  import opened BitsetBytes

  // bit k of byte i is element 8 * i + k
  ghost predicate BitIs(bytes: seq<bv8>, s: seq<bool>, i: nat, k: nat)
    requires i < |bytes| && k < 8
  {
    Bit(bytes[i], k) == (8 * i + k < |s| && s[8 * i + k])
  }

  ghost predicate Packs(bytes: seq<bv8>, s: seq<bool>) {
    && |bytes| == NumBytes(|s|)
    && forall i, k | 0 <= i < |bytes| && 0 <= k < 8 :: BitIs(bytes, s, i, k)
  }

  // the same, whatever follows the last element in its byte
  ghost predicate Agrees(bytes: seq<bv8>, s: seq<bool>) {
    && |bytes| == NumBytes(|s|)
    && forall i, k | 0 <= i < |bytes| && 0 <= k < 8 && 8 * i + k < |s| :: BitIs(bytes, s, i, k)
  }

  lemma ByteOf(pos: nat)
    ensures 8 * (pos / 8) + pos % 8 == pos
  {
  }

  // the bytes of equal sequences are equal, and the other way round
  lemma PacksUnique(a: seq<bv8>, b: seq<bv8>, s: seq<bool>, t: seq<bool>)
    requires Packs(a, s) && Packs(b, t) && |s| == |t|
    ensures a == b <==> s == t
  {
    if s == t {
      forall i | 0 <= i < |a| ensures a[i] == b[i] {
        forall k | 0 <= k < 8 ensures Bit(a[i], k) == Bit(b[i], k) {
          assert BitIs(a, s, i, k) && BitIs(b, t, i, k);
        }
        SameBits(a[i], b[i]);
      }
    }
    if a == b {
      forall p | 0 <= p < |s| ensures s[p] == t[p] {
        ByteOf(p);
        assert BitIs(a, s, p / 8, p % 8) && BitIs(b, t, p / 8, p % 8);
      }
    }
  }

  ghost predicate ByteIs(b: bv8, s: seq<bool>, i: nat) {
    forall k | 0 <= k < 8 :: BitAt(b, s, i, k)
  }

  ghost predicate BitAt(b: bv8, s: seq<bool>, i: nat, k: nat)
    requires k < 8
  {
    Bit(b, k) == (8 * i + k < |s| && s[8 * i + k])
  }

  // one byte is replaced, and nothing outside it
  lemma PackByte(bytes: seq<bv8>, s: seq<bool>, n: nat, b: bv8, t: seq<bool>)
    requires |bytes| == NumBytes(|s|) && |t| == |s| && n < |bytes| && ByteIs(b, t, n)
    requires forall p | 0 <= p < |s| && (p < 8 * n || p >= 8 * n + 8) :: t[p] == s[p]
    requires forall i, k | 0 <= i < |bytes| && i != n && 0 <= k < 8 :: BitIs(bytes, s, i, k)
    ensures Packs(bytes[n := b], t)
  {
    var out := bytes[n := b];
    forall i, k | 0 <= i < |out| && 0 <= k < 8 ensures BitIs(out, t, i, k) {
      if i != n {
        assert BitIs(bytes, s, i, k);
      } else {
        assert BitAt(b, t, n, k);
      }
    }
  }

  lemma TailByte(b: bv8, s: seq<bool>, n: nat)
    requires 8 * n < |s| < 8 * n + 8
    requires forall k | 0 <= k < 8 && 8 * n + k < |s| :: Bit(b, k) == s[8 * n + k]
    ensures ByteIs(b & LastMask(|s|), s, n)
  {
    var b' := b & LastMask(|s|);
    forall k | 0 <= k < 8 ensures BitAt(b', s, n, k) {
      AndBit(b, LastMask(|s|), k);
      LastMaskBit(|s|, k);
    }
  }

  lemma TailCleared(bytes: seq<bv8>, s: seq<bool>)
    requires Agrees(bytes, s)
    ensures |s| % 8 == 0 ==> Packs(bytes, s)
    ensures |s| % 8 != 0 ==> Packs(bytes[|bytes| - 1 := bytes[|bytes| - 1] & LastMask(|s|)], s)
  {
    if |s| % 8 != 0 {
      var n := |bytes| - 1;
      forall k | 0 <= k < 8 && 8 * n + k < |s| ensures Bit(bytes[n], k) == s[8 * n + k] {
        assert BitIs(bytes, s, n, k);
      }
      TailByte(bytes[n], s, n);
      PackByte(bytes, s, n, bytes[n] & LastMask(|s|), s);
    }
  }

  // the byte that holds pos, with that element changed to value
  lemma ChangeByte(b: bv8, b': bv8, s: seq<bool>, pos: nat, value: bool)
    requires pos < |s| && ByteIs(b, s, pos / 8)
    requires forall k | 0 <= k < 8 :: Bit(b', k) == if k == pos % 8 then value else Bit(b, k)
    ensures ByteIs(b', s[pos := value], pos / 8)
  {
    var n, t := pos / 8, s[pos := value];
    ByteOf(pos);
    forall k | 0 <= k < 8 ensures BitAt(b', t, n, k) {
      assert BitAt(b, s, n, k);
    }
  }

  lemma PacksByte(bytes: seq<bv8>, s: seq<bool>, pos: nat)
    requires Packs(bytes, s) && pos < |s|
    ensures pos / 8 < |bytes| && ByteIs(bytes[pos / 8], s, pos / 8)
    ensures Bit(bytes[pos / 8], pos % 8) == s[pos]
  {
    var n := pos / 8;
    ByteOf(pos);
    forall k | 0 <= k < 8 ensures BitAt(bytes[n], s, n, k) {
      assert BitIs(bytes, s, n, k);
    }
    assert BitAt(bytes[n], s, n, pos % 8);
  }

  lemma PackChange(bytes: seq<bv8>, s: seq<bool>, pos: nat, b': bv8, value: bool)
    requires Packs(bytes, s) && pos < |s| && pos / 8 < |bytes|
    requires forall k | 0 <= k < 8 :: Bit(b', k) == if k == pos % 8 then value else Bit(bytes[pos / 8], k)
    ensures Packs(bytes[pos / 8 := b'], s[pos := value])
  {
    PacksByte(bytes, s, pos);
    ChangeByte(bytes[pos / 8], b', s, pos, value);
    ByteOf(pos);
    PackByte(bytes, s, pos / 8, b', s[pos := value]);
  }

  lemma PackSet(bytes: seq<bv8>, s: seq<bool>, pos: nat)
    requires Packs(bytes, s) && pos < |s|
    ensures pos / 8 < |bytes| && Packs(bytes[pos / 8 := bytes[pos / 8] | Mask(pos % 8)], s[pos := true])
  {
    PacksByte(bytes, s, pos);
    var b, j := bytes[pos / 8], pos % 8;
    var b' := b | Mask(j);
    forall k | 0 <= k < 8 ensures Bit(b', k) == if k == j then true else Bit(b, k) {
      SetBit(b, j, k);
    }
    PackChange(bytes, s, pos, b', true);
  }

  lemma PackReset(bytes: seq<bv8>, s: seq<bool>, pos: nat)
    requires Packs(bytes, s) && pos < |s|
    ensures pos / 8 < |bytes| && Packs(bytes[pos / 8 := bytes[pos / 8] & !Mask(pos % 8)], s[pos := false])
  {
    PacksByte(bytes, s, pos);
    var b, j := bytes[pos / 8], pos % 8;
    var b' := b & !Mask(j);
    forall k | 0 <= k < 8 ensures Bit(b', k) == if k == j then false else Bit(b, k) {
      ResetBit(b, j, k);
    }
    PackChange(bytes, s, pos, b', false);
  }

  lemma PackFlip(bytes: seq<bv8>, s: seq<bool>, pos: nat)
    requires Packs(bytes, s) && pos < |s|
    ensures pos / 8 < |bytes| && Packs(bytes[pos / 8 := bytes[pos / 8] ^ Mask(pos % 8)], s[pos := !s[pos]])
  {
    PacksByte(bytes, s, pos);
    var b, j := bytes[pos / 8], pos % 8;
    var b' := b ^ Mask(j);
    forall k | 0 <= k < 8 ensures Bit(b', k) == if k == j then !s[pos] else Bit(b, k) {
      FlipBit(b, j, k);
    }
    PackChange(bytes, s, pos, b', !s[pos]);
  }

  datatype Op = And | Or | Xor

  function OnByte(op: Op, a: bv8, b: bv8): bv8 {
    match op case And => a & b case Or => a | b case Xor => a ^ b
  }

  ghost function OnBool(op: Op, a: bool, b: bool): bool {
    match op case And => a && b case Or => a || b case Xor => a != b
  }

  lemma OpBit(op: Op, a: bv8, b: bv8, k: nat)
    requires k < 8
    ensures Bit(OnByte(op, a, b), k) == OnBool(op, Bit(a, k), Bit(b, k))
  {
    AndBit(a, b, k);
    OrBit(a, b, k);
    XorBit(a, b, k);
  }

  // element by element
  ghost function Zip(op: Op, s: seq<bool>, t: seq<bool>): seq<bool>
    requires |s| == |t|
  {
    seq(|s|, i requires 0 <= i < |s| => OnBool(op, s[i], t[i]))
  }

  lemma PackOp(op: Op, a: seq<bv8>, b: seq<bv8>, out: seq<bv8>, s: seq<bool>, t: seq<bool>)
    requires Packs(a, s) && Packs(b, t) && |s| == |t| && |out| == |a|
    requires forall i | 0 <= i < |out| :: out[i] == OnByte(op, a[i], b[i])
    ensures Agrees(out, Zip(op, s, t))
  {
    var z := Zip(op, s, t);
    forall i, k | 0 <= i < |out| && 0 <= k < 8 && 8 * i + k < |s| ensures BitIs(out, z, i, k) {
      assert BitIs(a, s, i, k) && BitIs(b, t, i, k);
      OpBit(op, a[i], b[i], k);
    }
  }

  ghost function Negated(s: seq<bool>): seq<bool> { seq(|s|, i requires 0 <= i < |s| => !s[i]) }

  lemma PackNot(a: seq<bv8>, out: seq<bv8>, s: seq<bool>)
    requires Packs(a, s) && |out| == |a| && forall i | 0 <= i < |out| :: out[i] == !a[i]
    ensures Agrees(out, Negated(s))
  {
    var z := Negated(s);
    forall i, k | 0 <= i < |out| && 0 <= k < 8 && 8 * i + k < |s| ensures BitIs(out, z, i, k) {
      assert BitIs(a, s, i, k);
      NotBit(a[i], k);
    }
  }

  ghost function All(n: nat, b: bool): seq<bool> { seq(n, _ => b) }

  lemma PackAll(out: seq<bv8>, n: nat, b: bool)
    requires |out| == NumBytes(n) && forall i | 0 <= i < |out| :: out[i] == if b then UCHAR_MAX else 0
    ensures Agrees(out, All(n, b)) && (!b ==> Packs(out, All(n, b)))
  {
  }

  // the first n elements of s, or s and n - |s| times false
  ghost function Resized(s: seq<bool>, n: nat): (t: seq<bool>)
    ensures |t| == n
  {
    if n <= |s| then s[..n] else s + All(n - |s|, false)
  }

  lemma PackResize(a: seq<bv8>, out: seq<bv8>, s: seq<bool>, n: nat)
    requires Packs(a, s) && |out| == NumBytes(n)
    requires forall i | 0 <= i < |out| :: out[i] == if i < |a| then a[i] else 0
    ensures Agrees(out, Resized(s, n))
  {
    var z := Resized(s, n);
    forall i, k | 0 <= i < |out| && 0 <= k < 8 && 8 * i + k < n ensures BitIs(out, z, i, k) {
      ConstantBit(k);
      if i < |a| {
        assert BitIs(a, s, i, k);
      }
    }
  }

  // ---------- counting ----------

  ghost function Count(s: seq<bool>, n: nat): nat
    requires n <= |s|
  {
    if n == 0 then 0 else Count(s, n - 1) + if s[n - 1] then 1 else 0
  }

  // the number of true elements
  lemma {:induction false} CountIsCardinality(s: seq<bool>, n: nat)
    requires n <= |s|
    ensures Count(s, n) == |set i | 0 <= i < n && s[i]|
  {
    if n > 0 {
      CountIsCardinality(s, n - 1);
      var below := set i | 0 <= i < n - 1 && s[i];
      assert (set i | 0 <= i < n && s[i]) == below + if s[n - 1] then {n - 1} else {};
    }
  }

  // a byte adds its ones, up to m of its bits being in use
  lemma {:induction false} CountByte(bytes: seq<bv8>, s: seq<bool>, i: nat, b: bv8, m: nat)
    requires i < |bytes| && m <= 8 && 8 * i + m <= |s| && Packs(bytes, s)
    requires forall k | 0 <= k < 8 :: Bit(b, k) == (k < m && Bit(bytes[i], k))
    ensures Count(s, 8 * i + m) == Count(s, 8 * i) + Ones(b)
  {
    CountBits(bytes, s, i, b, m);
    OnesUpTo(b, m);
  }

  ghost function OnesBelow(b: bv8, m: nat): nat
    requires m <= 8
  {
    if m == 0 then 0 else OnesBelow(b, m - 1) + One(b, m - 1)
  }

  lemma {:induction false} CountBits(bytes: seq<bv8>, s: seq<bool>, i: nat, b: bv8, m: nat)
    requires i < |bytes| && m <= 8 && 8 * i + m <= |s| && Packs(bytes, s)
    requires forall k | 0 <= k < m :: Bit(b, k) == Bit(bytes[i], k)
    ensures Count(s, 8 * i + m) == Count(s, 8 * i) + OnesBelow(b, m)
  {
    if m > 0 {
      CountBits(bytes, s, i, b, m - 1);
      assert BitIs(bytes, s, i, m - 1);
    }
  }

  lemma {:induction false} OnesUpTo(b: bv8, m: nat)
    requires m <= 8 && forall k | m <= k < 8 :: !Bit(b, k)
    ensures OnesBelow(b, m) == Ones(b)
    decreases 8 - m
  {
    if m < 8 {
      OnesUpTo(b, m + 1);
    } else {
      assert OnesBelow(b, 8) == OnesBelow(b, 6) + One(b, 6) + One(b, 7);
      assert OnesBelow(b, 6) == OnesBelow(b, 4) + One(b, 4) + One(b, 5);
      assert OnesBelow(b, 4) == OnesBelow(b, 2) + One(b, 2) + One(b, 3);
      assert OnesBelow(b, 1) == One(b, 0) && OnesBelow(b, 2) == OnesBelow(b, 1) + One(b, 1);
    }
  }

  // what masking leaves of the last byte
  lemma LastByte(bytes: seq<bv8>, s: seq<bool>, k: nat)
    requires Packs(bytes, s) && |s| % 8 != 0 && k < 8
    ensures |bytes| - 1 == |s| / 8
    ensures Bit(bytes[|bytes| - 1] & LastMask(|s|), k) == (k < |s| % 8 && Bit(bytes[|bytes| - 1], k))
  {
  }

  lemma CountLast(bytes: seq<bv8>, s: seq<bool>)
    requires Packs(bytes, s) && |s| % 8 != 0
    ensures |bytes| - 1 == |s| / 8
    ensures Count(s, |s|) == Count(s, 8 * (|s| / 8)) + Ones(bytes[|bytes| - 1] & LastMask(|s|))
  {
    var n, m := |s| / 8, |s| % 8;
    var last := bytes[|bytes| - 1] & LastMask(|s|);
    forall k | 0 <= k < 8 ensures Bit(last, k) == (k < m && Bit(bytes[n], k)) {
      LastByte(bytes, s, k);
    }
    CountByte(bytes, s, n, last, m);
  }

  // ---------- all and any ----------

  lemma FullByte(bytes: seq<bv8>, s: seq<bool>, i: nat)
    requires Packs(bytes, s) && 8 * i + 8 <= |s|
    ensures i < |bytes| && (bytes[i] == UCHAR_MAX <==> forall p | 8 * i <= p < 8 * i + 8 :: s[p])
  {
    FirstBits(bytes, s, i, bytes[i], 8);
    if forall p | 8 * i <= p < 8 * i + 8 :: s[p] {
      forall k | 0 <= k < 8 ensures Bit(bytes[i], k) == Bit(UCHAR_MAX, k) {
        ConstantBit(k);
        assert BitIs(bytes, s, i, k);
      }
      SameBits(bytes[i], UCHAR_MAX);
    }
  }

  lemma EmptyByte(bytes: seq<bv8>, s: seq<bool>, i: nat)
    requires Packs(bytes, s) && 8 * i + 8 <= |s|
    ensures i < |bytes| && (bytes[i] == 0 <==> forall p | 8 * i <= p < 8 * i + 8 :: !s[p])
  {
    FirstBits(bytes, s, i, bytes[i], 8);
    if forall p | 8 * i <= p < 8 * i + 8 :: !s[p] {
      forall k | 0 <= k < 8 ensures Bit(bytes[i], k) == Bit(0, k) {
        ConstantBit(k);
        assert BitIs(bytes, s, i, k);
      }
      SameBits(bytes[i], 0);
    }
  }

  // the elements in the first m bits of a byte
  lemma FirstBits(bytes: seq<bv8>, s: seq<bool>, i: nat, b: bv8, m: nat)
    requires Packs(bytes, s) && i < |bytes| && m <= 8 && 8 * i + m <= |s|
    requires forall k | 0 <= k < m :: Bit(b, k) == Bit(bytes[i], k)
    ensures forall p | 8 * i <= p < 8 * i + m :: s[p] == Bit(b, p - 8 * i)
  {
    forall p | 8 * i <= p < 8 * i + m ensures s[p] == Bit(b, p - 8 * i) {
      assert BitIs(bytes, s, i, p - 8 * i);
    }
  }

  lemma FullLast(bytes: seq<bv8>, s: seq<bool>)
    requires Packs(bytes, s) && |s| % 8 != 0
    ensures |bytes| - 1 == |s| / 8
    ensures bytes[|bytes| - 1] & LastMask(|s|) == LastMask(|s|) <==> forall p | 8 * (|s| / 8) <= p < |s| :: s[p]
  {
    var n, m := |s| / 8, |s| % 8;
    var last := bytes[n] & LastMask(|s|);
    forall k | 0 <= k < 8
      ensures Bit(last, k) == (k < m && Bit(bytes[n], k)) && Bit(LastMask(|s|), k) == (k < m)
    {
      LastByte(bytes, s, k);
      LastMaskBit(|s|, k);
    }
    assert |s| == 8 * n + m;
    FirstBits(bytes, s, n, last, m);
    if forall p | 8 * n <= p < |s| :: s[p] {
      forall k | 0 <= k < 8 ensures Bit(last, k) == Bit(LastMask(|s|), k) {
        assert k < m ==> s[8 * n + k] == Bit(last, 8 * n + k - 8 * n);
      }
      SameBits(last, LastMask(|s|));
    }
  }

  lemma EmptyLast(bytes: seq<bv8>, s: seq<bool>)
    requires Packs(bytes, s) && |s| % 8 != 0
    ensures |bytes| - 1 == |s| / 8
    ensures bytes[|bytes| - 1] & LastMask(|s|) == 0 <==> forall p | 8 * (|s| / 8) <= p < |s| :: !s[p]
  {
    var n, m := |s| / 8, |s| % 8;
    var last := bytes[n] & LastMask(|s|);
    forall k | 0 <= k < 8 ensures Bit(last, k) == (k < m && Bit(bytes[n], k)) && !Bit(0, k) {
      LastByte(bytes, s, k);
      ConstantBit(k);
    }
    assert |s| == 8 * n + m;
    FirstBits(bytes, s, n, last, m);
    if forall p | 8 * n <= p < |s| :: !s[p] {
      forall k | 0 <= k < 8 ensures Bit(last, k) == Bit(0, k) {
        assert k < m ==> s[8 * n + k] == Bit(last, 8 * n + k - 8 * n);
      }
      SameBits(last, 0);
    }
  }

  // ---------- text ----------

  // the highest position first
  ghost function Show(s: seq<bool>): string {
    seq(|s|, i requires 0 <= i < |s| => if s[|s| - 1 - i] then '1' else '0')
  }

  ghost predicate Digits(t: string) { forall i | 0 <= i < |t| :: t[i] == '0' || t[i] == '1' }

  ghost function Parse(t: string): seq<bool> {
    seq(|t|, i requires 0 <= i < |t| => t[|t| - 1 - i] == '1')
  }

  lemma ParseShow(s: seq<bool>)
    ensures Digits(Show(s)) && Parse(Show(s)) == s
  {
  }

  lemma ShowParse(t: string)
    requires Digits(t)
    ensures Show(Parse(t)) == t
  {
  }
}
