/** The dictionary behind the configuration parser: parallel arrays of keys, values and hashes with
    holes, searched linearly, filled at the first hole, doubled when full and emptied in place. */
module IniDictionary {
  import opened CText

  type Value = Option<string>  // None is the NULL value, which a key may be bound to
  type Bindings = map<string, Value>

  const DICTMINSZ := 128

  // ----- dictionary_hash -----

  /** A char is signed: bytes from 128 up are sign-extended before they are added. */
  function Extend(c: char): bv32 {
    var b := c as int % 256;
    if b < 128 then b as bv32 else b as bv32 | 0xffff_ff00
  }

  function Mix(h: bv32, c: char): bv32 {
    var a := h + Extend(c);
    var b := a + (a << 10);
    b ^ (b >> 6)
  }

  function MixAll(key: string): bv32 {
    if key == [] then 0 else Mix(MixAll(key[..|key| - 1]), key[|key| - 1])
  }

  function Finish(h: bv32): bv32 {
    var a := h + (h << 3);
    var b := a ^ (a >> 11);
    b + (b << 15)
  }

  function Hash(key: string): bv32 {
    Finish(MixAll(key))
  }

  method ComputeHash(key: string) returns (hash: bv32)
    ensures hash == Hash(key)
  {
    hash := 0;
    for i := 0 to |key|
      invariant hash == MixAll(key[..i])
    {
      assert key[..i + 1][..i] == key[..i];
      hash := Mix(hash, key[i]);
    }
    assert key[..|key|] == key;
    hash := Finish(hash);
  }

  /** The empty key is one whose hash is the hash of a hole. */
  lemma EmptyKeyHash()
    ensures Hash("") == 0
  {
  }

  lemma MixedOne(c: char)
    ensures MixAll([c]) == Mix(0, c)
  {
    assert [c][..0] == [];
  }

  lemma Extended()
    ensures Extend('a') == 97 && Extend('b') == 98 && Extend('\U{80}') == 0xffff_ff80
  {
    assert 'a' as int % 256 == 97 && 'b' as int % 256 == 98 && '\U{80}' as int % 256 == 128;
    assert 97 as bv32 == 97 && 98 as bv32 == 98 && 128 as bv32 == 128;
  }

  /** Three hashes in full: of one character, of one from 128 up, and of two. */
  lemma HashVectors()
    ensures Hash("a") == 0xca2e_9442 && Hash("\U{80}") == 0xc31d_4e27 && Hash("ab") == 0x45e6_1e58
  {
    Extended();
    MixedOne('a');
    MixedOne('\U{80}');
    assert MixAll("a") == 0x0001_8270 && MixAll("\U{80}") == 0xfc02_087e;
    assert "ab"[..1] == "a" && MixAll("ab") == Mix(MixAll("a"), 'b') == 0x0614_f9f9;
  }

  // ----- what the slots hold -----

  type Slots = seq<Option<string>>

  /** Where each key sits: `at` maps the occupied slots' keys to their positions and nothing else, so
      occupied slots hold different keys. */
  ghost predicate Indexed(keys: Slots, at: map<string, nat>) {
    && (forall i | 0 <= i < |keys| && keys[i].Some? :: keys[i].value in at && at[keys[i].value] == i)
    && (forall k | k in at :: at[k] < |keys| && keys[at[k]] == Some(k))
  }

  function Occupied(keys: Slots): (n: nat)
    ensures n <= |keys|
  {
    if keys == [] then 0
    else Occupied(keys[..|keys| - 1]) + if keys[|keys| - 1].Some? then 1 else 0
  }

  lemma {:induction false} OccupiedSplits(a: Slots, b: Slots)
    ensures Occupied(a + b) == Occupied(a) + Occupied(b)
  {
    if b == [] {
      assert a + b == a;
    } else {
      OccupiedSplits(a, b[..|b| - 1]);
      assert (a + b)[..|a + b| - 1] == a + b[..|b| - 1];
    }
  }

  lemma OccupiedUpdate(keys: Slots, i: nat, x: Option<string>)
    requires i < |keys|
    ensures Occupied(keys[i := x]) ==
            Occupied(keys) - (if keys[i].Some? then 1 else 0) + (if x.Some? then 1 else 0)
  {
    OccupiedSplits(keys[..i] + [keys[i]], keys[i + 1..]);
    OccupiedSplits(keys[..i], [keys[i]]);
    OccupiedSplits(keys[..i] + [x], keys[i + 1..]);
    OccupiedSplits(keys[..i], [x]);
    assert keys == keys[..i] + [keys[i]] + keys[i + 1..];
    assert keys[i := x] == keys[..i] + [x] + keys[i + 1..];
    assert Occupied([x]) == Occupied([]) + if x.Some? then 1 else 0 by { assert [x][..0] == []; }
    assert Occupied([keys[i]]) == Occupied([]) + if keys[i].Some? then 1 else 0 by { assert [keys[i]][..0] == []; }
  }

  /** A full table has no hole, an unfilled one has. */
  lemma {:induction false} FullIffNoHole(keys: Slots)
    ensures Occupied(keys) == |keys| <==> None !in keys
  {
    if keys != [] {
      var front := keys[..|keys| - 1];
      FullIffNoHole(front);
      assert keys == front + [keys[|keys| - 1]];
    }
  }

  /** The number of occupied slots is the number of keys. */
  lemma {:induction false} OccupiedIsSize(keys: Slots, at: map<string, nat>)
    requires Indexed(keys, at)
    ensures Occupied(keys) == |at|
  {
    if keys == [] {
      assert at == map[];
    } else {
      var last := keys[|keys| - 1];
      var at' := if last.Some? then at - {last.value} else at;
      OccupiedIsSize(keys[..|keys| - 1], at');
      if last.Some? {
        assert at'.Keys == at.Keys - {last.value};
      }
    }
  }

  lemma OccupiedAtMost(keys: Slots, n: nat)
    requires n == Occupied(keys)
    ensures n <= |keys|
  {
  }

  lemma EmptySlots(keys: Slots)
    requires forall i | 0 <= i < |keys| :: keys[i].None?
    ensures Occupied(keys) == 0
  {
  }

  /** The representation invariant of the three parallel arrays: they hold the map `m`, an occupied slot
      has its key's hash, a hole has the hash 0, and `n` counts the occupied slots. */
  ghost predicate Table(keys: Slots, vals: seq<Value>, hashes: seq<bv32>, n: nat,
                        m: Bindings, at: map<string, nat>) {
    && |keys| == |vals| == |hashes|
    && Indexed(keys, at)
    && m.Keys == at.Keys
    && (forall k | k in m :: m[k] == vals[at[k]])
    && (forall i | 0 <= i < |keys| :: hashes[i] == if keys[i].Some? then Hash(keys[i].value) else 0)
    && n == Occupied(keys)
  }

  /** `initial` doubled `times` times. */
  function Doubled(initial: nat, times: nat): nat {
    if times == 0 then initial else 2 * Doubled(initial, times - 1)
  }

  // ----- sections -----

  /** A key without a colon names a section. */
  predicate IsSection(slot: Option<string>) {
    slot.Some? && ':' !in slot.value
  }

  /** The section names, in slot order. */
  function Sections(keys: Slots): seq<string> {
    if keys == [] then []
    else Sections(keys[..|keys| - 1]) +
         if IsSection(keys[|keys| - 1]) then [keys[|keys| - 1].value] else []
  }

  /** Sections lists every section key once and nothing else. */
  lemma {:induction false} SectionsEnumerate(keys: Slots, at: map<string, nat>)
    requires Indexed(keys, at)
    ensures forall s :: s in Sections(keys) <==> Some(s) in keys && ':' !in s
    ensures forall i, j | 0 <= i < j < |Sections(keys)| :: Sections(keys)[i] != Sections(keys)[j]
  {
    if keys != [] {
      var front, last := keys[..|keys| - 1], keys[|keys| - 1];
      SectionsEnumerate(front, if last.Some? then at - {last.value} else at);
      assert keys == front + [last];
    }
  }

  lemma {:induction false} SectionsGrow(keys: Slots, i: nat)
    requires i <= |keys|
    ensures Sections(keys[..i]) <= Sections(keys)
  {
    if i == |keys| {
      assert keys[..i] == keys;
    } else {
      SectionsGrow(keys[..|keys| - 1], i);
      assert keys[..|keys| - 1][..i] == keys[..i];
    }
  }

  /** The sections stand in slot order. */
  lemma {:induction false} SectionsInOrder(keys: Slots, more: Slots)
    ensures Sections(keys + more) == Sections(keys) + Sections(more)
  {
    if more == [] {
      assert keys + more == keys;
    } else {
      SectionsInOrder(keys, more[..|more| - 1]);
      assert (keys + more)[..|keys + more| - 1] == keys + more[..|more| - 1];
    }
  }

  // ----- where a key is put -----

  /** The first hole, or the end of a full table. */
  function FirstNone(keys: Slots): (i: nat)
    ensures i <= |keys| && (forall j | 0 <= j < i :: keys[j].Some?) && (i < |keys| ==> keys[i].None?)
  {
    if keys == [] || keys[0].None? then 0 else 1 + FirstNone(keys[1..])
  }

  lemma FirstNoneIs(keys: Slots, i: nat)
    requires i < |keys| && keys[i].None? && forall j | 0 <= j < i :: keys[j].Some?
    ensures FirstNone(keys) == i
  {
  }

  /** Doubling a full table puts a hole at its former end. */
  lemma FirstNoneGrown(keys: Slots)
    requires None !in keys && keys != []
    ensures FirstNone(keys + Zeros(None, |keys|)) == FirstNone(keys) == |keys|
  {
    var all := keys + Zeros(None, |keys|);
    assert all[|keys|] == None;
    FirstNoneIs(all, |keys|);
  }

  // ----- histories -----

  datatype Op = SetOp(key: string, val: Value) | UnsetOp(key: string)

  function Apply(m: Bindings, op: Op): Bindings {
    match op
    case SetOp(k, v) => m[k := v]
    case UnsetOp(k) => m - {k}
  }

  function Replay(ops: seq<Op>): Bindings {
    if ops == [] then map[] else Apply(Replay(ops[..|ops| - 1]), ops[|ops| - 1])
  }

  /** The most entries ever present during a history. */
  function Peak(ops: seq<Op>): nat {
    if ops == [] then 0
    else
      var before := Peak(ops[..|ops| - 1]);
      if |Replay(ops)| > before then |Replay(ops)| else before
  }

  /** A history read backwards: the latest operation on `k` decides, and None means absent. */
  function Latest(ops: seq<Op>, k: string): Option<Value> {
    if ops == [] then None
    else
      var last := ops[|ops| - 1];
      if last.key != k then Latest(ops[..|ops| - 1], k)
      else if last.SetOp? then Some(last.val) else None
  }

  /** The map after a history binds a key exactly as the latest operation on that key left it. */
  lemma {:induction false} ReplayIsLatest(ops: seq<Op>, k: string)
    ensures k in Replay(ops) <==> Latest(ops, k).Some?
    ensures k in Replay(ops) ==> Some(Replay(ops)[k]) == Latest(ops, k)
  {
    if ops != [] {
      ReplayIsLatest(ops[..|ops| - 1], k);
    }
  }

  // ----- the object -----

  datatype Fetch = Fetched(value: Value) | NullCompared

  function Zeros<T>(zero: T, n: nat): seq<T> {
    seq(n, _ => zero)
  }

  /** mem_double: a block of twice the size whose second half is zero. */
  method MemDouble<T>(a: array<T>, zero: T) returns (b: array<T>)
    ensures fresh(b) && b.Length == 2 * a.Length
    ensures b[..] == a[..] + Zeros(zero, a.Length)
  {
    b := new T[2 * a.Length](_ => zero);
    for i := 0 to a.Length
      invariant b[..i] == a[..i]
      invariant forall j | i <= j < b.Length :: b[j] == zero
    {
      b[i] := a[i];
    }
  }

  // ----- updates of the slots -----

  lemma PutValue(keys: Slots, vals: seq<Value>, hashes: seq<bv32>, n: nat, m: Bindings, at: map<string, nat>,
                 i: nat, k: string, v: Value, vals': seq<Value>)
    requires Table(keys, vals, hashes, n, m, at)
    requires i < |keys| && keys[i] == Some(k) && vals' == vals[i := v]
    ensures Table(keys, vals', hashes, n, m[k := v], at)
  {
    assert m[k := v].Keys == m.Keys;
  }

  lemma IndexPut(keys: Slots, at: map<string, nat>, i: nat, k: string)
    requires Indexed(keys, at) && i < |keys| && keys[i].None? && k !in at
    ensures Indexed(keys[i := Some(k)], at[k := i])
  {
  }

  lemma PutKey(keys: Slots, vals: seq<Value>, hashes: seq<bv32>, n: nat, m: Bindings, at: map<string, nat>,
               i: nat, k: string, v: Value, h: bv32, keys': Slots, vals': seq<Value>, hashes': seq<bv32>)
    requires Table(keys, vals, hashes, n, m, at) && k !in m
    requires i < |keys| && keys[i].None? && h == Hash(k)
    requires keys' == keys[i := Some(k)] && vals' == vals[i := v] && hashes' == hashes[i := h]
    ensures Table(keys', vals', hashes', n + 1, m[k := v], at[k := i])
  {
    OccupiedUpdate(keys, i, Some(k));
    IndexPut(keys, at, i, k);
  }

  lemma ClearKey(keys: Slots, vals: seq<Value>, hashes: seq<bv32>, n: nat, m: Bindings, at: map<string, nat>,
                 i: nat, k: string, keys': Slots, vals': seq<Value>, hashes': seq<bv32>)
    requires Table(keys, vals, hashes, n, m, at)
    requires i < |keys| && keys[i] == Some(k)
    requires keys' == keys[i := None] && vals' == vals[i := None] && hashes' == hashes[i := 0]
    ensures n > 0 && Table(keys', vals', hashes', n - 1, m - {k}, at - {k})
  {
    OccupiedUpdate(keys, i, None);
  }

  lemma FoundAt(keys: Slots, vals: seq<Value>, hashes: seq<bv32>, n: nat, m: Bindings, at: map<string, nat>,
                k: string, i: nat)
    requires Table(keys, vals, hashes, n, m, at) && i < |keys| && keys[i] == Some(k)
    ensures k in m && m[k] == vals[i]
  {
  }

  lemma NotFound(keys: Slots, vals: seq<Value>, hashes: seq<bv32>, n: nat, m: Bindings, at: map<string, nat>,
                 k: string)
    requires Table(keys, vals, hashes, n, m, at) && forall j | 0 <= j < |keys| :: keys[j] != Some(k)
    ensures k !in m
  {
  }

  lemma PadWithHoles(keys: Slots, vals: seq<Value>, hashes: seq<bv32>, n: nat, m: Bindings, at: map<string, nat>,
                     keys': Slots, vals': seq<Value>, hashes': seq<bv32>)
    requires Table(keys, vals, hashes, n, m, at)
    requires keys' == keys + Zeros(None, |keys|)
    requires vals' == vals + Zeros(None, |vals|)
    requires hashes' == hashes + Zeros(0, |hashes|)
    ensures Table(keys', vals', hashes', n, m, at)
  {
    OccupiedSplits(keys, Zeros(None, |keys|));
    EmptySlots(Zeros(None, |keys|));
  }

  /** Where the look-up as written stops: at an equal hash over a hole or over the key itself. */
  predicate StopsAt(slot: Option<string>, stored: bv32, k: string, h: bv32) {
    h == stored && (slot.None? || slot.value == k)
  }

  /** A hole comes before any match of the key. */
  ghost predicate HoleFirst(keys: Slots, k: string) {
    exists i :: 0 <= i < |keys| && keys[i].None? && forall j | 0 <= j < i :: keys[j] != Some(k)
  }

  lemma StopMeans(keys: Slots, vals: seq<Value>, hashes: seq<bv32>, n: nat, m: Bindings, at: map<string, nat>,
                  k: string, h: bv32, i: nat)
    requires Table(keys, vals, hashes, n, m, at) && h == Hash(k) && i <= |keys|
    requires i < |keys| ==> StopsAt(keys[i], hashes[i], k, h)
    requires forall j | 0 <= j < i :: !StopsAt(keys[j], hashes[j], k, h)
    ensures i < |keys| && keys[i].None? <==> h == 0 && HoleFirst(keys, k)
    ensures i < |keys| && keys[i].Some? ==> k in m && m[k] == vals[i]
    ensures i == |keys| ==> k !in m
  {
    assert forall j | 0 <= j < i :: keys[j] != Some(k) && (h == 0 ==> keys[j].Some?);
    if i == |keys| {
      NotFound(keys, vals, hashes, n, m, at, k);
    } else if keys[i].Some? {
      FoundAt(keys, vals, hashes, n, m, at, k, i);
    }
  }

  /** Only setting a key can raise the peak. */
  lemma PeakStep(ops: seq<Op>, i: nat)
    requires i < |ops|
    ensures Replay(ops[..i + 1]) == Apply(Replay(ops[..i]), ops[i])
    ensures var m := Replay(ops[..i + 1]);
            Peak(ops[..i + 1]) == if ops[i].SetOp? && |m| > Peak(ops[..i]) then |m| else Peak(ops[..i])
  {
    assert ops[..i + 1][..i] == ops[..i];
    var m := Replay(ops[..i]);
    assert |m| <= Peak(ops[..i]);
    if ops[i].UnsetOp? {
      assert (m - {ops[i].key}).Keys == m.Keys - {ops[i].key};
      assert |(m - {ops[i].key}).Keys| <= |m.Keys|;
    }
  }

  class Dictionary {
    var n: nat
    var size: nat
    var key: array<Option<string>>
    var val: array<Value>
    var hash: array<bv32>

    ghost var bindings: Bindings    // the abstract value
    ghost var at: map<string, nat>  // where each key sits
    ghost var peak: nat             // the most entries held so far
    ghost var doublings: nat
    ghost const initial: nat

    ghost function Repr(): set<object>
      reads this
    {
      {this, key, val, hash}
    }

    /** Three different arrays of the same length. */
    ghost predicate Shape()
      reads this
    {
      var k: object, v: object, h: object := key, val, hash;
      k != v && k != h && v != h && 0 < size == key.Length == val.Length == hash.Length
    }

    ghost predicate Capacity()
      reads this
    {
      DICTMINSZ <= initial && size == Doubled(initial, doublings) && n <= peak
    }

    ghost predicate Valid()
      reads this, key, val, hash
    {
      && Shape()
      && Table(key[..], val[..], hash[..], n, bindings, at)
      && Capacity()
      && (size == initial || size < 2 * peak)
    }

    constructor (wanted: int)
      ensures Valid() && fresh(Repr())
      ensures bindings == map[] && peak == 0
      ensures initial == size == if wanted < DICTMINSZ then DICTMINSZ else wanted
    {
      var s := if wanted < DICTMINSZ then DICTMINSZ else wanted;
      n, size, initial := 0, s, s;
      key := new Option<string>[s](_ => None);
      val := new Value[s](_ => None);
      hash := new bv32[s](_ => 0);
      bindings, at, peak, doublings := map[], map[], 0, 0;
      new;
      EmptySlots(key[..]);
    }

    lemma CountsEntries()
      requires Valid()
      ensures n == |bindings|
    {
      OccupiedIsSize(key[..], at);
      assert |at.Keys| == |bindings.Keys|;
    }

    /** The search loop shared by get, set and unset: a hole is skipped, then the stored hash and, on a
        match, the stored key are compared. */
    method Find(k: string, h: bv32) returns (i: nat)
      requires Valid() && h == Hash(k)
      ensures i <= size
      ensures i < size ==> key[i] == Some(k)
      ensures i < size <==> k in bindings
      ensures i < size ==> bindings[k] == val[i]
    {
      i := 0;
      while i < size
        invariant i <= size
        invariant forall j | 0 <= j < i :: key[j] != Some(k)
      {
        if key[i].Some? && h == hash[i] && k == key[i].value {
          FoundAt(key[..], val[..], hash[..], n, bindings, at, k, i);
          return;
        }
        i := i + 1;
      }
      NotFound(key[..], val[..], hash[..], n, bindings, at, k);
    }

    method Get(k: string, def: Value) returns (r: Value)
      requires Valid()
      ensures r == if k in bindings then bindings[k] else def
    {
      var h := ComputeHash(k);
      var i := Find(k, h);
      r := if i < size then val[i] else def;
    }

    /** Get as the source spells it: the hole test asks whether the key array itself is NULL, which it
        never is, so a hole is compared with strcmp whenever the hash sought equals the hole's hash, 0. */
    method GetAsWritten(k: string, def: Value) returns (r: Fetch)
      requires Valid()
      ensures r == NullCompared <==> Hash(k) == 0 && HoleFirst(key[..], k)
      ensures r.Fetched? ==> r.value == if k in bindings then bindings[k] else def
    {
      var h := ComputeHash(k);
      var i := SameHash(k, h);
      StopMeans(key[..], val[..], hash[..], n, bindings, at, k, h, i);
      if i == size {
        return Fetched(def);
      }
      r := if key[i].None? then NullCompared else Fetched(val[i]);
    }

    /** The first slot of that hash that is a hole or holds the key. */
    method SameHash(k: string, h: bv32) returns (i: nat)
      requires Shape()
      ensures i <= size
      ensures i < size ==> StopsAt(key[i], hash[i], k, h)
      ensures forall j | 0 <= j < i :: !StopsAt(key[j], hash[j], k, h)
    {
      i := 0;
      while i < size && !StopsAt(key[i], hash[i], k, h)
        invariant i <= size
        invariant forall j | 0 <= j < i :: !StopsAt(key[j], hash[j], k, h)
      {
        i := i + 1;
      }
    }

    method Set(k: string, v: Value)
      requires Valid()
      modifies Repr()
      ensures Valid() && fresh(Repr() - old(Repr()))
      ensures bindings == old(bindings)[k := v]
      ensures at == if k in old(bindings) then old(at) else old(at)[k := old(FirstNone(key[..]))]
      ensures peak == if n > old(peak) then n else old(peak)
    {
      var h := ComputeHash(k);
      var i := FindIfAny(k, h);
      ghost var hole := FirstNone(key[..]);
      if i < size {
        Overwrite(i, k, v);
        assert at == old(at) && peak == old(peak) && n <= peak;
      } else {
        SetNew(k, v, h);
        assert at == old(at)[k := hole];
      }
    }

    /** The part of set for a key that is not there yet. */
    method SetNew(k: string, v: Value, h: bv32)
      requires Valid() && k !in bindings && h == Hash(k)
      modifies Repr()
      ensures Valid() && fresh(Repr() - old(Repr()))
      ensures bindings == old(bindings)[k := v] && at == old(at)[k := old(FirstNone(key[..]))]
      ensures peak == if n > old(peak) then n else old(peak)
    {
      Reserve();
      Insert(k, v, h);
    }

    /** The search of set, which is skipped when the table is empty. */
    method FindIfAny(k: string, h: bv32) returns (i: nat)
      requires Valid() && h == Hash(k)
      ensures i < size ==> key[i] == Some(k)
      ensures i < size <==> k in bindings
    {
      if n > 0 {
        i := Find(k, h);
      } else {
        CountsEntries();
        i := size;
      }
    }

    /** Makes room for one more entry: doubles a full table. */
    method Reserve()
      requires Valid()
      modifies this`key, this`val, this`hash, this`size, this`doublings
      ensures Shape() && Table(key[..], val[..], hash[..], n, bindings, at) && n < size
      ensures Capacity() && (size == initial || size < 2 * peak || size == 2 * n)
      ensures FirstNone(key[..]) == old(FirstNone(key[..]))
      ensures fresh(Repr() - old(Repr()))
    {
      OccupiedAtMost(key[..], n);
      FullIffNoHole(key[..]);
      if n == size {
        FirstNoneGrown(key[..]);
        Grow();
      }
    }

    /** Adds a key that is not there yet, in the first empty slot. */
    method Insert(k: string, v: Value, h: bv32)
      requires Shape() && Table(key[..], val[..], hash[..], n, bindings, at) && n < size
      requires Capacity() && (size == initial || size < 2 * peak || size == 2 * n)
      requires k !in bindings && h == Hash(k)
      modifies this`n, this`bindings, this`at, this`peak, key, val, hash
      ensures Valid() && bindings == old(bindings)[k := v] && at == old(at)[k := old(FirstNone(key[..]))]
      ensures peak == if n > old(peak) then n else old(peak)
    {
      var i := FirstHole();
      Fill(i, k, v, h);
      peak := if n > peak then n else peak;
    }

    method Overwrite(i: nat, k: string, v: Value)
      requires Valid() && i < size && key[i] == Some(k)
      modifies this`bindings, val
      ensures Valid() && bindings == old(bindings)[k := v]
    {
      ghost var ks, vs, hs := key[..], val[..], hash[..];
      val[i] := v;
      PutValue(ks, vs, hs, n, bindings, at, i, k, v, val[..]);
      bindings := bindings[k := v];
      assert key[..] == ks && hash[..] == hs;
    }

    /** Writes one slot of the three arrays. */
    method PutSlot(i: nat, k: Option<string>, v: Value, h: bv32)
      requires Shape() && i < size
      modifies key, val, hash
      ensures key[..] == old(key[..])[i := k] && val[..] == old(val[..])[i := v] && hash[..] == old(hash[..])[i := h]
    {
      key[i], val[i], hash[i] := k, v, h;
    }

    /** Puts a new key into a hole. */
    method Fill(i: nat, k: string, v: Value, h: bv32)
      requires Shape() && Table(key[..], val[..], hash[..], n, bindings, at)
      requires i < size && key[i].None? && k !in bindings && h == Hash(k)
      modifies this`n, this`bindings, this`at, key, val, hash
      ensures Shape() && Table(key[..], val[..], hash[..], n, bindings, at)
      ensures n == old(n) + 1 && bindings == old(bindings)[k := v] && at == old(at)[k := i]
    {
      ghost var ks, vs, hs := key[..], val[..], hash[..];
      PutSlot(i, Some(k), v, h);
      PutKey(ks, vs, hs, n, bindings, at, i, k, v, h, key[..], val[..], hash[..]);
      n := n + 1;
      bindings, at := bindings[k := v], at[k := i];
    }

    /** Doubles the three arrays; the new half is all holes. */
    method Grow()
      requires Shape() && Table(key[..], val[..], hash[..], n, bindings, at) && Capacity()
      modifies this`key, this`val, this`hash, this`size, this`doublings
      ensures fresh(key) && fresh(val) && fresh(hash)
      ensures Shape() && size == 2 * old(size) && key[..] == old(key[..]) + Zeros(None, old(size))
      ensures Table(key[..], val[..], hash[..], n, bindings, at)
      ensures Capacity()
    {
      var v := MemDouble(val, None);
      var k := MemDouble(key, None);
      var h := MemDouble(hash, 0);
      PadWithHoles(key[..], val[..], hash[..], n, bindings, at, k[..], v[..], h[..]);
      Adopt(k, v, h);
    }

    /** Exchanges the arrays for ones of twice the size. */
    method Adopt(k: array<Option<string>>, v: array<Value>, h: array<bv32>)
      modifies this`key, this`val, this`hash, this`size, this`doublings
      ensures key == k && val == v && hash == h && size == 2 * old(size) && doublings == old(doublings) + 1
    {
      val, key, hash := v, k, h;
      size := size * 2;
      doublings := doublings + 1;
    }

    /** The first empty slot; there is one while the table is not full. */
    method FirstHole() returns (i: nat)
      requires size == key.Length && Occupied(key[..]) < size
      ensures i < size && key[i].None? && i == FirstNone(key[..])
    {
      FullIffNoHole(key[..]);
      i := 0;
      while key[i].Some?
        invariant i < size && None in key[i..]
        invariant forall j | 0 <= j < i :: key[j].Some?
        decreases size - i
      {
        assert key[i..] == [key[i]] + key[i + 1..];
        i := i + 1;
      }
      FirstNoneIs(key[..], i);
    }

    method Unset(k: string)
      requires Valid()
      modifies Repr()
      ensures Valid() && key == old(key) && val == old(val) && hash == old(hash)
      ensures bindings == old(bindings) - {k} && at == old(at) - {k}
      ensures peak == old(peak) && size == old(size)
    {
      var h := ComputeHash(k);
      var i := Find(k, h);
      if i < size {
        Clear(i, k);
      } else {
        assert bindings - {k} == bindings && at - {k} == at;
      }
    }

    method Clear(i: nat, k: string)
      requires Valid() && i < size && key[i] == Some(k)
      modifies this`n, this`bindings, this`at, key, val, hash
      ensures Valid()
      ensures n + 1 == old(n) && bindings == old(bindings) - {k} && at == old(at) - {k}
    {
      ghost var ks, vs, hs := key[..], val[..], hash[..];
      ghost var m, a := bindings - {k}, at - {k};
      ClearKey(ks, vs, hs, n, bindings, at, i, k, ks[i := None], vs[i := None], hs[i := 0]);
      PutSlot(i, None, None, 0);
      SetCount(n - 1, m, a);
    }

    /** The counter, and the abstract value with it. */
    method SetCount(count: nat, ghost m: Bindings, ghost a: map<string, nat>)
      modifies this`n, this`bindings, this`at
      ensures n == count && bindings == m && at == a
    {
      n, bindings, at := count, m, a;
    }

    /** One step of a history. */
    method Perform(ops: seq<Op>, i: nat)
      requires Valid() && i < |ops| && bindings == Replay(ops[..i]) && peak == Peak(ops[..i])
      modifies Repr()
      ensures Valid() && forall o | o in Repr() :: o in old(Repr()) || fresh(o)
      ensures bindings == Replay(ops[..i + 1]) && peak == Peak(ops[..i + 1])
    {
      PeakStep(ops, i);
      match ops[i] {
        case SetOp(k, v) =>
          Set(k, v);
          CountsEntries();
        case UnsetOp(k) =>
          Unset(k);
      }
    }

    /** iniparser_getnsec. */
    method CountSections() returns (nsec: nat)
      requires size == key.Length
      ensures nsec == |Sections(key[..])|
    {
      nsec := 0;
      for i := 0 to size
        invariant nsec == |Sections(key[..i])|
      {
        assert key[..i + 1][..i] == key[..i];
        if key[i].Some? && ':' !in key[i].value {
          nsec := nsec + 1;
        }
      }
      assert key[..size] == key[..];
    }

    /** iniparser_getsecname: the n-th section in slot order, NULL when there is none. */
    method SectionName(wanted: int) returns (name: Option<string>)
      requires size == key.Length
      ensures name == if 0 <= wanted < |Sections(key[..])| then Some(Sections(key[..])[wanted]) else None
    {
      if wanted < 0 {
        return None;
      }
      var found := 0;
      var i := 0;
      while i < size
        invariant i <= size
        invariant found == |Sections(key[..i])| <= wanted
      {
        assert key[..i + 1][..i] == key[..i];
        if key[i].Some? && ':' !in key[i].value {
          found := found + 1;
          if found > wanted {
            SectionsGrow(key[..], i + 1);
            return key[i];
          }
        }
        i := i + 1;
      }
      assert key[..size] == key[..];
      return None;
    }
  }

  /** Any history of set and unset leaves the object equal to the map that the history denotes, with
      a capacity of 128 doubled some number of times and below twice the peak. */
  method Run(ops: seq<Op>) returns (d: Dictionary)
    ensures d.Valid() && fresh(d.Repr())
    ensures d.bindings == Replay(ops) && d.peak == Peak(ops)
    ensures d.initial == 128 && d.size == Doubled(128, d.doublings)
    ensures d.size == 128 || d.size < 2 * Peak(ops)
  {
    d := new Dictionary(0);
    assert ops[..0] == [];
    for i := 0 to |ops|
      invariant d.Valid() && d.initial == DICTMINSZ
      invariant fresh(d.Repr())
      invariant d.bindings == Replay(ops[..i]) && d.peak == Peak(ops[..i])
    {
      d.Perform(ops, i);
    }
    assert ops[..|ops|] == ops;
  }
}
