/**
 * The result cache: a fixed table of CacheSize slots, open addressing with
 * linear probing (step 1, wrapping) from the slot the key hashes to. A slot is
 * empty when its cost is Empty; Unreachable (-1) is an ordinary cached value.
 */
module ResultCaches {

  const CacheSize := 10000
  /** The cost that marks an empty slot, and what a lookup of an absent key returns. */
  const Empty := -2
  const Unreachable := -1

  datatype CacheEntry = CacheEntry(x1: int, y1: int, x2: int, y2: int, cost: int)

  /** A query key: source (x1, y1) to destination (x2, y2). */
  datatype Key = Key(x1: int, y1: int, x2: int, y2: int)

  function KeyOf(e: CacheEntry): Key {
    Key(e.x1, e.y1, e.x2, e.y2)
  }

  predicate Occupied(e: CacheEntry) {
    e.cost != Empty
  }

  const Two32 := 0x1_0000_0000

  /** The low 32 bits of n, read as an unsigned number, as two's complement arithmetic leaves them. */
  function Low32(n: int): (r: int)
    ensures 0 <= r < Two32
  {
    n % Two32
  }

  function Pow2(n: nat): (p: nat)
    ensures p >= 1
  {
    if n == 0 then 1 else 2 * Pow2(n - 1)
  }

  /**
   * Bitwise exclusive or of the low `bits` bits of two non-negative numbers:
   * bit k of the result is set exactly when bit k is set in one operand only.
   */
  function Xor(a: int, b: int, bits: nat): (r: int)
    requires a >= 0 && b >= 0
    ensures 0 <= r
    decreases bits
  {
    if bits == 0 then 0 else (a % 2 + b % 2) % 2 + 2 * Xor(a / 2, b / 2, bits - 1)
  }

  /** The exclusive or of the low `bits` bits fits in `bits` bits. */
  lemma {:induction false} XorBelow(a: int, b: int, bits: nat)
    requires a >= 0 && b >= 0
    ensures Xor(a, b, bits) < Pow2(bits)
    decreases bits
  {
    if bits > 0 {
      XorBelow(a / 2, b / 2, bits - 1);
    }
  }

  /** Exclusive or does not depend on the order of its operands. */
  lemma {:induction false} XorCommutes(a: int, b: int, bits: nat)
    requires a >= 0 && b >= 0
    ensures Xor(a, b, bits) == Xor(b, a, bits)
    decreases bits
  {
    if bits > 0 {
      XorCommutes(a / 2, b / 2, bits - 1);
    }
  }

  /** A number exclusive-ored with itself is 0. */
  lemma {:induction false} XorSelf(a: int, bits: nat)
    requires a >= 0
    ensures Xor(a, a, bits) == 0
    decreases bits
  {
    if bits > 0 {
      XorSelf(a / 2, bits - 1);
    }
  }

  /** Exclusive or with 0 keeps the low `bits` bits. */
  lemma {:induction false} XorZero(a: int, bits: nat)
    requires a >= 0
    ensures Xor(a, 0, bits) == a % Pow2(bits)
    decreases bits
  {
    if bits > 0 {
      var p, m := Pow2(bits - 1), Pow2(bits);
      XorZero(a / 2, bits - 1);
      assert Xor(a, 0, bits) == a % 2 + 2 * ((a / 2) % p);
      DivModTwice(a, p, m);
    }
  }

  /** Bit k of the exclusive or is the sum of bit k of the operands, mod 2. */
  lemma {:induction false} XorBit(a: int, b: int, bits: nat, k: nat)
    requires a >= 0 && b >= 0 && k < bits
    ensures (Xor(a, b, bits) / Pow2(k)) % 2 == ((a / Pow2(k)) % 2 + (b / Pow2(k)) % 2) % 2
    decreases k
  {
    var x, rest := Xor(a, b, bits), Xor(a / 2, b / 2, bits - 1);
    var low := (a % 2 + b % 2) % 2;
    assert x == low + 2 * rest;
    if k == 0 {
      assert Pow2(k) == 1;
      assert x % 2 == low;
    } else {
      var p, m := Pow2(k - 1), Pow2(k);
      assert x / 2 == rest;
      XorBit(a / 2, b / 2, bits - 1, k - 1);
      DivTwice(x, p, m);
      DivTwice(a, p, m);
      DivTwice(b, p, m);
    }
  }

  /** Dividing by 2p is halving and then dividing by p. */
  lemma DivTwice(n: int, p: int, m: int)
    requires n >= 0 && p >= 1 && m == 2 * p
    ensures n / m == (n / 2) / p
  {
    var q, r := (n / 2) / p, (n / 2) % p;
    var rem := 2 * r + n % 2;
    assert n == m * q + rem;
    ModUnique(n, m, q, rem);
    assert m * (n / m) == m * q;
  }

  /** Taking a number mod 2p splits into its lowest bit and the rest mod p. */
  lemma DivModTwice(a: int, p: int, m: int)
    requires a >= 0 && p >= 1 && m == 2 * p
    ensures a % m == a % 2 + 2 * ((a / 2) % p)
  {
    var q1, r1 := (a / 2) / p, (a / 2) % p;
    var rem := a % 2 + 2 * r1;
    assert a == m * q1 + rem;
    ModUnique(a, m, q1, rem);
  }

  lemma MulAtLeast(m: int, n: int)
    requires m >= 1 && n >= 1
    ensures m * n >= m
  {
    assert m * n == m * (n - 1) + m;
  }

  /** The remainder is the only value below m that differs from a by a multiple of m. */
  lemma ModUnique(a: int, m: int, k: int, rem: int)
    requires m >= 1 && a == m * k + rem && 0 <= rem < m
    ensures a % m == rem
  {
    var k', r' := a / m, a % m;
    assert m * (k - k') == r' - rem;
    if k > k' {
      MulAtLeast(m, k - k');
    } else if k < k' {
      MulAtLeast(m, k' - k);
    }
  }

  /**
   * The source multiplies each coordinate by a large odd constant in 32-bit
   * arithmetic, XORs the four products and reduces the unsigned result modulo
   * the table size.
   */
  function Hash(x1: int, y1: int, x2: int, y2: int): (h: int)
    ensures 0 <= h < CacheSize
  {
    var a := Xor(Low32(x1 * 73856093), Low32(y1 * 19349663), 32);
    var b := Xor(a, Low32(x2 * 83492791), 32);
    Xor(b, Low32(y2 * 67867979), 32) % CacheSize
  }

  /** A slot of the table. */
  type Slot = i: int | 0 <= i < CacheSize

  function HashKey(k: Key): Slot {
    Hash(k.x1, k.y1, k.x2, k.y2)
  }

  /** The slot visited d probes after the home slot h. */
  function Probe(h: int, d: int): int {
    if h + d < CacheSize then h + d else h + d - CacheSize
  }

  /** How many probes after the home slot h slot i is visited. */
  function Offset(h: int, i: int): int {
    if h <= i then i - h else i - h + CacheSize
  }

  /** The wrapping step the source writes with `%` is Probe. */
  lemma ProbeWraps(h: int, d: int)
    requires 0 <= h < CacheSize && 0 <= d < CacheSize
    ensures (h + d) % CacheSize == Probe(h, d) && 0 <= Probe(h, d) < CacheSize
  {
  }

  lemma ProbeOffset(h: int, i: int)
    requires 0 <= h < CacheSize && 0 <= i < CacheSize
    ensures 0 <= Offset(h, i) < CacheSize && Probe(h, Offset(h, i)) == i
    ensures forall d | 0 <= d < CacheSize && Probe(h, d) == i :: d == Offset(h, i)
  {
  }

  /** A map into [0, n) that sends distinct keys to distinct values has at most n keys. */
  lemma {:induction false} InjectiveBound(m: map<Key, int>, n: int)
    requires n >= 0
    requires forall k | k in m :: 0 <= m[k] < n
    requires forall k1, k2 | k1 in m && k2 in m && m[k1] == m[k2] :: k1 == k2
    ensures |m| <= n
    decreases n
  {
    if n == 0 {
      assert m.Keys == {};
    } else if k :| k in m && m[k] == n - 1 {
      var rest := m - {k};
      assert rest.Keys == m.Keys - {k};
      InjectiveBound(rest, n - 1);
    } else {
      InjectiveBound(m, n - 1);
    }
  }

  /** Every slot the probe sequence from home visits before slot i is occupied in t. */
  ghost predicate RunOccupied(t: seq<CacheEntry>, home: int, i: int) {
    forall d | 0 <= d < Offset(home, i) :: 0 <= Probe(home, d) < |t| && Occupied(t[Probe(home, d)])
  }

  /**
   * The table invariant on a snapshot t of the slots: so is exactly the occupied
   * slots and their keys (so each key is stored at most once), and every stored
   * key sits at the end of an unbroken run of occupied slots from its home slot.
   */
  ghost predicate TableOk(h: Key -> Slot, t: seq<CacheEntry>, so: map<Key, int>) {
    && |t| == CacheSize
    && (forall k | k in so :: 0 <= so[k] < CacheSize && Occupied(t[so[k]]) && KeyOf(t[so[k]]) == k)
    && (forall i | 0 <= i < CacheSize && Occupied(t[i]) :: KeyOf(t[i]) in so && so[KeyOf(t[i])] == i)
    && (forall k | k in so :: RunOccupied(t, h(k), so[k]))
  }

  /** The cached results of a snapshot: each stored key with its cost. */
  ghost function ContentsOf(t: seq<CacheEntry>, so: map<Key, int>): map<Key, int> {
    map k | k in so && 0 <= so[k] < |t| :: t[so[k]].cost
  }

  function EntryOf(k: Key, cost: int): CacheEntry {
    CacheEntry(k.x1, k.y1, k.x2, k.y2, cost)
  }

  /** An injective map into [0, n) that misses the value hole has fewer than n keys. */
  lemma InjectiveMissBound(m: map<Key, int>, n: int, hole: int)
    requires 0 <= hole < n
    requires forall k | k in m :: 0 <= m[k] < n && m[k] != hole
    requires forall k1, k2 | k1 in m && k2 in m && m[k1] == m[k2] :: k1 == k2
    ensures |m| < n
  {
    var moved := map k | k in m :: if m[k] == n - 1 then hole else m[k];
    assert moved.Keys == m.Keys;
    InjectiveBound(moved, n - 1);
  }

  /** The table has room for one more key exactly when some slot is empty. */
  lemma RoomIffEmptySlot(h: Key -> Slot, t: seq<CacheEntry>, so: map<Key, int>)
    requires TableOk(h, t, so)
    ensures |so| <= CacheSize
    ensures |so| < CacheSize <==> exists i | 0 <= i < CacheSize :: !Occupied(t[i])
  {
    InjectiveBound(so, CacheSize);
    if e :| 0 <= e < CacheSize && !Occupied(t[e]) {
      InjectiveMissBound(so, CacheSize, e);
    } else {
      FullCount(t, so, CacheSize);
      assert so.Keys == set k | k in so && so[k] < CacheSize;
    }
  }

  /** When the first n slots are all occupied, so stores at least the n keys they hold. */
  lemma {:induction false} FullCount(t: seq<CacheEntry>, so: map<Key, int>, n: int)
    requires |t| == CacheSize && 0 <= n <= CacheSize
    requires forall k | k in so :: 0 <= so[k] < |t| && KeyOf(t[so[k]]) == k
    requires forall i | 0 <= i < n :: Occupied(t[i]) && KeyOf(t[i]) in so && so[KeyOf(t[i])] == i
    ensures |set k | k in so && so[k] < n| >= n
    decreases n
  {
    if n > 0 {
      FullCount(t, so, n - 1);
      var below := set k | k in so && so[k] < n - 1;
      var top := KeyOf(t[n - 1]);
      assert (set k | k in so && so[k] < n) == below + {top};
      assert top !in below;
    }
  }

  /** Filling an empty slot at the end of the key's probe run stores the key there. */
  lemma StoreInEmpty(h: Key -> Slot, t: seq<CacheEntry>, so: map<Key, int>, e: int, k: Key, cost: int)
    requires TableOk(h, t, so) && 0 <= e < CacheSize && !Occupied(t[e]) && k !in so && cost != Empty
    requires RunOccupied(t, h(k), e)
    ensures TableOk(h, t[e := EntryOf(k, cost)], so[k := e])
    ensures ContentsOf(t[e := EntryOf(k, cost)], so[k := e]) == ContentsOf(t, so)[k := cost]
    ensures |so[k := e]| == |so| + 1
  {
    var t', so' := t[e := EntryOf(k, cost)], so[k := e];
    forall i | 0 <= i < CacheSize && Occupied(t'[i]) ensures KeyOf(t'[i]) in so' && so'[KeyOf(t'[i])] == i {
      if i != e {
        assert Occupied(t[i]) && KeyOf(t[i]) != k;
      }
    }
    forall k2 | k2 in so' ensures RunOccupied(t', h(k2), so'[k2]) {
      if k2 != k {
        assert RunOccupied(t, h(k2), so[k2]);
      }
    }
  }

  /** Overwriting the slot that already holds the key changes only its cost. */
  lemma StoreInPlace(h: Key -> Slot, t: seq<CacheEntry>, so: map<Key, int>, k: Key, cost: int)
    requires TableOk(h, t, so) && k in so && cost != Empty
    ensures TableOk(h, t[so[k] := EntryOf(k, cost)], so)
    ensures ContentsOf(t[so[k] := EntryOf(k, cost)], so) == ContentsOf(t, so)[k := cost]
  {
    var t' := t[so[k] := EntryOf(k, cost)];
    forall k2 | k2 in so ensures RunOccupied(t', h(k2), so[k2]) {
      assert RunOccupied(t, h(k2), so[k2]);
    }
  }

  /** On a full table, writing the key into its home slot evicts the key stored there. */
  lemma Evict(h: Key -> Slot, t: seq<CacheEntry>, so: map<Key, int>, k: Key, cost: int)
    requires TableOk(h, t, so) && k !in so && cost != Empty
    requires forall i | 0 <= i < CacheSize :: Occupied(t[i])
    ensures TableOk(h, t[h(k) := EntryOf(k, cost)], (so - {KeyOf(t[h(k)])})[k := h(k)])
    ensures ContentsOf(t[h(k) := EntryOf(k, cost)], (so - {KeyOf(t[h(k)])})[k := h(k)])
              == (ContentsOf(t, so) - {KeyOf(t[h(k)])})[k := cost]
    ensures |(so - {KeyOf(t[h(k)])})[k := h(k)]| == |so|
  {
    var e := h(k);
    var t', ev := t[e := EntryOf(k, cost)], KeyOf(t[e]);
    var so' := (so - {ev})[k := e];
    assert ev in so && so[ev] == e;
    forall i | 0 <= i < CacheSize && Occupied(t'[i]) ensures KeyOf(t'[i]) in so' && so'[KeyOf(t'[i])] == i {
      if i != e {
        assert Occupied(t[i]) && KeyOf(t[i]) != k && KeyOf(t[i]) != ev;
      }
    }
    forall k2 | k2 in so' ensures RunOccupied(t', h(k2), so'[k2]) {
      if k2 != k {
        assert RunOccupied(t, h(k2), so[k2]);
      } else {
        assert Offset(e, e) == 0;
      }
    }
    assert (so - {ev}).Keys == so.Keys - {ev};
    EvictContents(t, so, e, k, cost);
  }

  lemma EvictContents(t: seq<CacheEntry>, so: map<Key, int>, e: int, k: Key, cost: int)
    requires |t| == CacheSize && 0 <= e < CacheSize && k !in so
    requires forall k2 | k2 in so :: 0 <= so[k2] < CacheSize && KeyOf(t[so[k2]]) == k2
    ensures ContentsOf(t[e := EntryOf(k, cost)], (so - {KeyOf(t[e])})[k := e])
              == (ContentsOf(t, so) - {KeyOf(t[e])})[k := cost]
  {
  }

  /** When no slot of a full probe cycle is empty or holds k, every slot is occupied and k is absent. */
  lemma AllOccupied(hf: Key -> Slot, t: seq<CacheEntry>, so: map<Key, int>, h: int, k: Key)
    requires TableOk(hf, t, so) && 0 <= h < CacheSize
    requires forall d | 0 <= d < CacheSize :: Occupied(t[Probe(h, d)]) && KeyOf(t[Probe(h, d)]) != k
    ensures forall i | 0 <= i < CacheSize :: Occupied(t[i])
    ensures k !in so
  {
    if k in so {
      ProbeOffset(h, so[k]);
    }
    forall i | 0 <= i < CacheSize ensures Occupied(t[i]) {
      ProbeOffset(h, i);
    }
  }

  class ResultCache {
    /**
     * The hash the table is probed with. The constructor fixes it to HashKey;
     * the probing invariants hold for every hash into the table.
     */
    const hashOf: Key -> Slot
    const table: array<CacheEntry>
    /** The number of occupied slots, as the source keeps it in cacheCount. */
    var cacheCount: int
    /** Which slot holds each stored key. */
    ghost var slotOf: map<Key, int>

    ghost predicate Valid()
      reads this, table
    {
      table.Length == CacheSize && cacheCount == |slotOf| && TableOk(hashOf, table[..], slotOf)
    }

    /** The table probes with the hash of get_cached_cost and set_cached_cost. */
    ghost predicate SourceHash() {
      forall k {:trigger HashKey(k)} :: hashOf(k) == HashKey(k)
    }

    /** The cached results: each stored key with its cost. */
    ghost function Contents(): map<Key, int>
      reads this, table
    {
      ContentsOf(table[..], slotOf)
    }

    lemma CountBounded()
      requires Valid()
      ensures 0 <= cacheCount <= CacheSize && Contents().Keys == slotOf.Keys
    {
      RoomIffEmptySlot(hashOf, table[..], slotOf);
    }

    /** Allocates the table and empties it (the allocation half of init_cache). */
    constructor ()
      ensures Valid() && Contents() == map[] && fresh(table)
      ensures SourceHash()
    {
      hashOf := HashKey;
      table := new CacheEntry[CacheSize];
      cacheCount := 0;
      slotOf := map[];
      new;
      Clear();
    }

    /** Marks every slot empty and resets the count. */
    method Clear()
      requires table.Length == CacheSize
      modifies this, table
      ensures Valid() && Contents() == map[]
    {
      for i := 0 to CacheSize
        invariant forall j | 0 <= j < i :: !Occupied(table[j])
      {
        table[i] := table[i].(cost := Empty, x1 := -1);
      }
      cacheCount := 0;
      slotOf := map[];
    }

    /** The probe loop of a lookup: the stored cost of the key, or Empty when it is absent. */
    method Get(x1: int, y1: int, x2: int, y2: int) returns (cost: int)
      requires Valid()
      ensures Key(x1, y1, x2, y2) in Contents() ==> cost == Contents()[Key(x1, y1, x2, y2)]
      ensures Key(x1, y1, x2, y2) !in Contents() ==> cost == Empty
    {
      ghost var k := Key(x1, y1, x2, y2);
      CountBounded();
      if cacheCount == 0 {
        assert slotOf.Keys == {};
        return Empty;
      }
      var index := hashOf(Key(x1, y1, x2, y2));
      for i := 0 to CacheSize
        invariant forall d | 0 <= d < i :: Occupied(table[Probe(index, d)]) && KeyOf(table[Probe(index, d)]) != k
        invariant k in slotOf ==> i <= Offset(index, slotOf[k])
      {
        ProbeWraps(index, i);
        var currentInd := (index + i) % CacheSize;
        if k in slotOf {
          ProbeOffset(index, slotOf[k]);
        }
        var e := table[currentInd];
        if e.cost != Empty && e.x1 == x1 && e.y1 == y1 && e.x2 == x2 && e.y2 == y2 {
          assert KeyOf(e) == k && slotOf[k] == currentInd;
          return e.cost;
        }
        if e.cost == Empty {
          return Empty;
        }
      }
      if k in slotOf {
        ProbeOffset(index, slotOf[k]);
      }
      return Empty;
    }

    /**
     * Stores cost under the key: in the first slot of the probe sequence that
     * is empty or already holds the key; when every slot holds some other key,
     * the key's home slot is overwritten and the key stored there is evicted.
     */
    method Set(x1: int, y1: int, x2: int, y2: int, cost: int)
      requires Valid() && cost != Empty
      modifies this, table
      ensures Valid()
      ensures Key(x1, y1, x2, y2) in old(Contents()) || old(cacheCount) < CacheSize ==>
                && Contents() == old(Contents())[Key(x1, y1, x2, y2) := cost]
                && cacheCount == old(cacheCount) + (if Key(x1, y1, x2, y2) in old(Contents()) then 0 else 1)
      ensures Key(x1, y1, x2, y2) !in old(Contents()) && old(cacheCount) == CacheSize ==>
                && Contents() == (old(Contents()) - {KeyOf(old(table[hashOf(Key(x1, y1, x2, y2))]))})[Key(x1, y1, x2, y2) := cost]
                && cacheCount == old(cacheCount)
    {
      ghost var k := Key(x1, y1, x2, y2);
      ghost var t0 := table[..];
      CountBounded();
      var ind := hashOf(Key(x1, y1, x2, y2));
      for i := 0 to CacheSize
        invariant unchanged(this, table) && table[..] == t0
        invariant forall d | 0 <= d < i :: Occupied(t0[Probe(ind, d)]) && KeyOf(t0[Probe(ind, d)]) != k
        invariant k in slotOf ==> i <= Offset(ind, slotOf[k])
      {
        ProbeWraps(ind, i);
        var currentIndex := (ind + i) % CacheSize;
        if k in slotOf {
          ProbeOffset(ind, slotOf[k]);
        }
        var e := table[currentIndex];
        if e.cost == Empty || (e.x1 == x1 && e.y1 == y1 && e.x2 == x2 && e.y2 == y2) {
          if e.cost == Empty {
            ProbeOffset(ind, currentIndex);
            assert RunOccupied(t0, ind, currentIndex);
          }
          Fill(currentIndex, x1, y1, x2, y2, cost);
          return;
        }
      }
      AllOccupied(hashOf, t0, slotOf, ind, k);
      table[ind] := CacheEntry(x1, y1, x2, y2, cost);
      assert table[..] == t0[ind := EntryOf(k, cost)];
      Evicted(t0, old(slotOf), k, cost);
    }

    /** The ghost update of the fall-back store: the key evicted from the home slot gives way to k. */
    ghost method Evicted(t0: seq<CacheEntry>, so: map<Key, int>, k: Key, cost: int)
      requires TableOk(hashOf, t0, so) && cacheCount == |so| && k !in so && cost != Empty
      requires forall i | 0 <= i < CacheSize :: Occupied(t0[i])
      requires table.Length == CacheSize && table[..] == t0[hashOf(k) := EntryOf(k, cost)]
      modifies this
      ensures Valid()
      ensures Contents() == (ContentsOf(t0, so) - {KeyOf(t0[hashOf(k)])})[k := cost]
      ensures cacheCount == old(cacheCount) == CacheSize
    {
      RoomIffEmptySlot(hashOf, t0, so);
      Evict(hashOf, t0, so, k, cost);
      slotOf := (so - {KeyOf(t0[hashOf(k)])})[k := hashOf(k)];
    }

    /**
     * The write of a store that found its slot: an empty slot at the end of the
     * key's probe run (the count grows), or the slot that already holds the key.
     */
    method Fill(e: int, x1: int, y1: int, x2: int, y2: int, cost: int)
      requires Valid() && cost != Empty && 0 <= e < CacheSize
      requires var k := Key(x1, y1, x2, y2);
        || (!Occupied(table[e]) && k !in slotOf && RunOccupied(table[..], hashOf(k), e))
        || (Occupied(table[e]) && KeyOf(table[e]) == k)
      modifies this, table
      ensures Valid()
      ensures Contents() == old(Contents())[Key(x1, y1, x2, y2) := cost]
      ensures cacheCount == old(cacheCount) + (if Key(x1, y1, x2, y2) in old(Contents()) then 0 else 1)
      ensures Key(x1, y1, x2, y2) in old(Contents()) || old(cacheCount) < CacheSize
    {
      ghost var k := Key(x1, y1, x2, y2);
      ghost var t0 := table[..];
      CountBounded();
      if table[e].cost == Empty {
        RoomIffEmptySlot(hashOf, t0, slotOf);
        StoreInEmpty(hashOf, t0, slotOf, e, k, cost);
        if cacheCount < CacheSize {
          cacheCount := cacheCount + 1;
        }
        slotOf := slotOf[k := e];
      } else {
        StoreInPlace(hashOf, t0, slotOf, k, cost);
      }
      table[e] := CacheEntry(x1, y1, x2, y2, cost);
      assert table[..] == t0[e := EntryOf(k, cost)];
    }
  }

  /**
   * A store followed by a lookup of the same key finds the stored cost, also
   * when the store fell back to overwriting a slot of a full table.
   */
  method StoreThenLookup(c: ResultCache, x1: int, y1: int, x2: int, y2: int, cost: int) returns (found: int)
    requires c.Valid() && cost != Empty
    modifies c, c.table
    ensures c.Valid() && found == cost
  {
    c.CountBounded();
    c.Set(x1, y1, x2, y2, cost);
    found := c.Get(x1, y1, x2, y2);
  }

  /** After a clear, every lookup reports an absent key. */
  method ClearThenLookup(c: ResultCache, x1: int, y1: int, x2: int, y2: int) returns (found: int)
    requires c.Valid()
    modifies c, c.table
    ensures c.Valid() && c.Contents() == map[] && found == Empty
  {
    c.Clear();
    found := c.Get(x1, y1, x2, y2);
  }
}
