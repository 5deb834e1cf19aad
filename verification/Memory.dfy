/** Guest memory byte by byte, with the little-endian words the registry reads. */
module Memory {
  import opened Prelude

  type Byte = b: int | 0 <= b < 256 witness 0

  /** Only mapped bytes have an entry. */
  type Memory = map<Word, Byte>

  /** How far `x` lies above `base`, going round the address space. */
  function Offset(base: Word, x: Word): Word {
    Wrap(x - base)
  }

  // Only `n` decreases. Naming the other arguments as well stops the verifier from
  // unrolling every access of a constant size.
  function Load(mem: Memory, a: Word, n: nat): Option<nat>
    decreases n, a, |mem|
  {
    if n == 0 then Some(0)
    else if a !in mem then None
    else match Load(mem, Wrap(a + 1), n - 1)
      case None => None
      case Some(high) => Some(mem[a] + 256 * high)
  }

  function Store(mem: Memory, a: Word, n: nat, value: nat): Memory
    decreases n, a, value, |mem|
  {
    if n == 0 then mem
    else Store(mem, Wrap(a + 1), n - 1, value / 256)[a := value % 256]
  }

  function Power256(n: nat): nat {
    if n == 0 then 1 else 256 * Power256(n - 1)
  }

  lemma {:induction false} LoadBounded(mem: Memory, a: Word, n: nat)
    ensures Load(mem, a, n).Some? ==> Load(mem, a, n).value < Power256(n)
    decreases n
  {
    if n > 0 {
      LoadBounded(mem, Wrap(a + 1), n - 1);
    }
  }

  lemma Power256Of8()
    ensures Power256(8) == TWO_64
  {
    assert Power256(4) == 0x1_0000_0000;
    assert Power256(8) == 256 * 256 * 256 * 256 * Power256(4);
  }

  const WORD_SIZE: nat := 8

  function LoadWord(mem: Memory, a: Word): Option<Word> {
    LoadBounded(mem, a, WORD_SIZE);
    Power256Of8();
    match Load(mem, a, WORD_SIZE)
    case None => None
    case Some(w) => Some(w)
  }

  function StoreWord(mem: Memory, a: Word, w: Word): Memory {
    Store(mem, a, WORD_SIZE, w)
  }

  /** Loading depends only on the n bytes from `a` upwards. */
  lemma {:induction false} LoadDependsOn(mem: Memory, mem': Memory, a: Word, n: nat)
    requires n <= TWO_64
    requires forall x: Word | Offset(a, x) < n :: (x in mem <==> x in mem') && (x in mem ==> mem[x] == mem'[x])
    ensures Load(mem, a, n) == Load(mem', a, n)
    decreases n
  {
    if n > 0 {
      assert Offset(a, a) == 0;
      var b := Wrap(a + 1);
      forall x: Word | Offset(b, x) < n - 1
        ensures (x in mem <==> x in mem') && (x in mem ==> mem[x] == mem'[x])
      {
        assert Offset(a, x) == Offset(b, x) + 1;
      }
      LoadDependsOn(mem, mem', b, n - 1);
    }
  }

  /** Storing changes only the n bytes from `a` upwards. */
  lemma {:induction false} StoreElsewhere(mem: Memory, a: Word, n: nat, value: nat, x: Word)
    requires n <= Offset(a, x)
    ensures var mem' := Store(mem, a, n, value);
            (x in mem' <==> x in mem) && (x in mem ==> mem'[x] == mem[x])
    decreases n
  {
    if n > 0 {
      assert Offset(a, a) == 0;
      OffsetFrom(a, x, 1);
      StoreElsewhere(mem, Wrap(a + 1), n - 1, value / 256, x);
    }
  }

  lemma LowByte(value: nat, n: nat)
    requires n > 0 && value < Power256(n)
    ensures value == value % 256 + 256 * (value / 256) && value / 256 < Power256(n - 1)
  {
  }

  /** A byte written just below an n-byte stretch does not touch it. */
  lemma ByteBelow(mem: Memory, a: Word, b: Byte, n: nat)
    requires n < TWO_64
    ensures Load(mem[a := b], Wrap(a + 1), n) == Load(mem, Wrap(a + 1), n)
  {
    var above := Wrap(a + 1);
    forall x: Word | Offset(above, x) < n
      ensures x != a
    {
      OffsetBelow(a, 1);
    }
    LoadDependsOn(mem[a := b], mem, above, n);
  }

  lemma {:induction false} LoadAfterStore(mem: Memory, a: Word, n: nat, value: nat)
    requires n <= TWO_64 && value < Power256(n)
    ensures Load(Store(mem, a, n, value), a, n) == Some(value)
    decreases n
  {
    if n > 0 {
      LowByte(value, n);
      LoadAfterStore(mem, Wrap(a + 1), n - 1, value / 256);
      var upper := Store(mem, Wrap(a + 1), n - 1, value / 256);
      ByteBelow(upper, a, value % 256, n - 1);
      assert Store(mem, a, n, value) == upper[a := value % 256];
    }
  }

  function ByteAt(mem: Memory, a: int): int {
    if Wrap(a) in mem then mem[Wrap(a)] else 0
  }

  lemma LoadStep(mem: Memory, a: int, n: nat)
    requires n > 0 && Load(mem, Wrap(a), n).Some?
    ensures Wrap(a) in mem && Load(mem, Wrap(a + 1), n - 1).Some?
    ensures Load(mem, Wrap(a), n).value == ByteAt(mem, a) + 256 * Load(mem, Wrap(a + 1), n - 1).value
  {
    WrapAbsorbs(a, 1);
  }

  lemma LoadFour(mem: Memory, a: int, n: nat)
    requires n >= 4 && Load(mem, Wrap(a), n).Some?
    ensures Wrap(a) in mem && Wrap(a + 1) in mem && Wrap(a + 2) in mem && Wrap(a + 3) in mem
    ensures Load(mem, Wrap(a + 4), n - 4).Some?
    ensures Load(mem, Wrap(a), n).value ==
            ByteAt(mem, a) + 0x100 * ByteAt(mem, a + 1) + 0x1_0000 * ByteAt(mem, a + 2)
            + 0x100_0000 * ByteAt(mem, a + 3) + 0x1_0000_0000 * Load(mem, Wrap(a + 4), n - 4).value
  {
    LoadStep(mem, a, n);
    LoadStep(mem, a + 1, n - 1);
    LoadStep(mem, a + 2, n - 2);
    LoadStep(mem, a + 3, n - 3);
  }

  /** A word is read little-endian: its lowest byte lies at the lowest address. */
  lemma WordIsLittleEndian(mem: Memory, a: Word)
    requires LoadWord(mem, a).Some?
    ensures LoadWord(mem, a).value ==
            ByteAt(mem, a) + 0x100 * ByteAt(mem, a + 1) + 0x1_0000 * ByteAt(mem, a + 2)
            + 0x100_0000 * ByteAt(mem, a + 3)
            + 0x1_0000_0000 * (ByteAt(mem, a + 4) + 0x100 * ByteAt(mem, a + 5) + 0x1_0000 * ByteAt(mem, a + 6)
                               + 0x100_0000 * ByteAt(mem, a + 7))
  {
    assert Wrap(a) == a;
    LoadFour(mem, a, WORD_SIZE);
    LoadFour(mem, a + 4, WORD_SIZE - 4);
  }

  /** A word survives a store to any word that does not overlap it. */
  lemma WordAfterDisjointStore(mem: Memory, a: Word, w: Word, b: Word)
    requires 8 <= Offset(a, b) <= TWO_64 - 8
    ensures LoadWord(StoreWord(mem, a, w), b) == LoadWord(mem, b)
  {
    forall x: Word | Offset(b, x) < 8
      ensures 8 <= Offset(a, x)
    {
      assert Offset(a, x) == Offset(a, b) + Offset(b, x);
    }
    forall x: Word | Offset(b, x) < 8
      ensures var mem' := StoreWord(mem, a, w);
              (x in mem <==> x in mem') && (x in mem ==> mem[x] == mem'[x])
    {
      StoreElsewhere(mem, a, WORD_SIZE, w, x);
    }
    LoadDependsOn(mem, StoreWord(mem, a, w), b, WORD_SIZE);
  }

  lemma WordAfterStore(mem: Memory, a: Word, w: Word)
    ensures LoadWord(StoreWord(mem, a, w), a) == Some(w)
  {
    Power256Of8();
    LoadAfterStore(mem, a, WORD_SIZE, w);
  }

  lemma OffsetOf(x: int, distance: nat)
    requires distance < TWO_64
    ensures Offset(Wrap(x), Wrap(x + distance)) == distance
  {
    var base: int := Wrap(x);
    WrapAbsorbs(x + distance, -base);
    assert x + distance - base == distance + TWO_64 * (x / TWO_64);
  }

  lemma OffsetZero(base: Word, x: Word)
    requires Offset(base, x) == 0
    ensures x == base
  {
  }

  lemma OffsetFrom(base: Word, x: Word, step: nat)
    requires step <= Offset(base, x)
    ensures Offset(Wrap(base + step), x) == Offset(base, x) - step
  {
  }

  lemma OffsetBelow(x: Word, step: nat)
    requires 0 < step < TWO_64
    ensures Offset(Wrap(x + step), x) == TWO_64 - step
  {
  }
}
