/**
 * A Bloom filter over strings: a fixed-length bit array and a seeded hash that
 * derives `numHashes` bit positions per item.  Bits are only ever set, never
 * cleared, which is what makes the filter free of false negatives.
 */
module Bloom {

  /** A value of the hash the filter is built on: a signed 32-bit integer. */
  type Digest = x: int | -0x8000_0000 <= x < 0x8000_0000

  /**
   * The seeded string hash (MurmurHash3 in the original), taken as a parameter:
   * any deterministic function of the item and the seed.
   */
  type HashFn = (string, nat) -> Digest

  /** The filter's fixed configuration: bit count, number of hashes, hash. */
  datatype HashScheme = HashScheme(size: nat, numHashes: nat, hash: HashFn)
  {
    /**
     * Bit positions can be computed: reducing modulo `size` is only evaluated
     * when there is at least one seed, so a zero-sized filter still works
     * with no hashes at all.
     */
    predicate Defined() {
      size > 0 || numHashes == 0
    }

    /** The positions of `item`, one per seed `0 .. numHashes-1`, in seed order. */
    function Indices(item: string): (r: seq<nat>)
      requires Defined()
      ensures |r| == numHashes
      ensures InRange(r, size)
      ensures forall i :: 0 <= i < numHashes ==> r[i] == hash(item, i) % size
    {
      seq(numHashes, (i: int) requires 0 <= i < numHashes => hash(item, i) % size)
    }
  }

  /** Every position in `idx` addresses one of `n` bits. */
  predicate InRange(idx: seq<nat>, n: nat) {
    forall k :: 0 <= k < |idx| ==> idx[k] < n
  }

  /** `all(bits[i] for i in idx)`, evaluated left to right. */
  function AllSet(bits: seq<bool>, idx: seq<nat>): (r: bool)
    requires InRange(idx, |bits|)
    ensures r <==> forall k :: 0 <= k < |idx| ==> bits[idx[k]]
  {
    if idx == [] then true else bits[idx[0]] && AllSet(bits, idx[1..])
  }

  /** The bits after setting each position of `idx` to 1, in order. */
  function SetBits(bits: seq<bool>, idx: seq<nat>): (r: seq<bool>)
    requires InRange(idx, |bits|)
    ensures |r| == |bits|
    ensures forall j :: 0 <= j < |bits| ==> (r[j] <==> bits[j] || j in idx)
    decreases |idx|
  {
    if idx == [] then bits
    else
      var front := idx[..|idx| - 1];
      assert idx == front + [idx[|idx| - 1]];
      SetBits(bits, front)[idx[|idx| - 1] := true]
  }

  /** `t` has every bit of `s` set (and the same length): bits only went 0 -> 1. */
  predicate Covers(s: seq<bool>, t: seq<bool>) {
    |s| == |t| && forall j :: 0 <= j < |s| && s[j] ==> t[j]
  }

  /** The number of set bits. */
  function CountSet(bits: seq<bool>): (r: nat)
    ensures r <= |bits|
  {
    if bits == [] then 0 else (if bits[0] then 1 else 0) + CountSet(bits[1..])
  }

  /** All `n` bits cleared. */
  function Zeros(n: nat): (r: seq<bool>)
    ensures |r| == n && CountSet(r) == 0
  {
    if n == 0 then [] else [false] + Zeros(n - 1)
  }

  /** Setting bits keeps every bit that was already set. */
  lemma SetBitsCovers(bits: seq<bool>, idx: seq<nat>)
    requires InRange(idx, |bits|)
    ensures Covers(bits, SetBits(bits, idx))
  {
  }

  /** Right after `add(item)`, `check(item)` holds. */
  lemma AddThenCheck(bits: seq<bool>, idx: seq<nat>)
    requires InRange(idx, |bits|)
    ensures AllSet(SetBits(bits, idx), idx)
  {
  }

  /** A check that holds keeps holding once more bits are set. */
  lemma CheckPersists(s: seq<bool>, t: seq<bool>, idx: seq<nat>)
    requires Covers(s, t) && InRange(idx, |s|)
    requires AllSet(s, idx)
    ensures AllSet(t, idx)
  {
  }

  /** The number of set bits never decreases as bits are set. */
  lemma {:induction false} CountSetMonotone(s: seq<bool>, t: seq<bool>)
    requires Covers(s, t)
    ensures CountSet(s) <= CountSet(t)
  {
    if s != [] {
      CountSetMonotone(s[1..], t[1..]);
    }
  }

  /** Setting one bit adds one to the count exactly when it was clear. */
  lemma {:induction false} CountSetUpdate(s: seq<bool>, j: nat)
    requires j < |s|
    ensures CountSet(s[j := true]) == CountSet(s) + (if s[j] then 0 else 1)
  {
    if j > 0 {
      assert s[j := true][1..] == s[1..][j - 1 := true];
      CountSetUpdate(s[1..], j - 1);
    }
  }

  /** One `add` sets at most as many new bits as it has positions. */
  lemma {:induction false} SetBitsCountBound(bits: seq<bool>, idx: seq<nat>)
    requires InRange(idx, |bits|)
    ensures CountSet(bits) <= CountSet(SetBits(bits, idx)) <= CountSet(bits) + |idx|
    decreases |idx|
  {
    SetBitsCovers(bits, idx);
    CountSetMonotone(bits, SetBits(bits, idx));
    if idx != [] {
      var front := idx[..|idx| - 1];
      SetBitsCountBound(bits, front);
      CountSetUpdate(SetBits(bits, front), idx[|idx| - 1]);
    }
  }

  /** The bits after `add`ing each of `items` in order, starting from `bits`. */
  function AddAll(s: HashScheme, bits: seq<bool>, items: seq<string>): (r: seq<bool>)
    requires s.Defined() && |bits| == s.size
    ensures Covers(bits, r)
    decreases |items|
  {
    if items == [] then bits
    else
      var before := AddAll(s, bits, items[..|items| - 1]);
      SetBits(before, s.Indices(items[|items| - 1]))
  }

  /**
   * No false negatives: every item that was added is reported as present,
   * whatever was added after it.
   */
  lemma {:induction false} NoFalseNegatives(s: HashScheme, bits: seq<bool>, items: seq<string>, k: nat)
    requires s.Defined() && |bits| == s.size
    requires k < |items|
    ensures AllSet(AddAll(s, bits, items), s.Indices(items[k]))
    decreases |items|
  {
    var front := items[..|items| - 1];
    var before := AddAll(s, bits, front);
    var idx := s.Indices(items[|items| - 1]);
    if k == |items| - 1 {
      AddThenCheck(before, idx);
    } else {
      assert front[k] == items[k];
      NoFalseNegatives(s, bits, front, k);
      SetBitsCovers(before, idx);
      CheckPersists(before, SetBits(before, idx), s.Indices(items[k]));
    }
  }

  /** The filter object: its configuration and its bit array, updated in place. */
  class Filter {
    const scheme: HashScheme
    const bits: array<bool>

    ghost predicate Valid() {
      bits.Length == scheme.size
    }

    /** A filter of `size` bits, all cleared. */
    constructor (size: nat, numHashes: nat, hash: HashFn)
      ensures Valid() && fresh(bits)
      ensures scheme.size == size && scheme.numHashes == numHashes && scheme.hash == hash
      ensures bits[..] == Zeros(size)
    {
      scheme := HashScheme(size, numHashes, hash);
      var a := new bool[size];
      for j := 0 to size
        invariant a[..j] == Zeros(j)
      {
        a[j] := false;
        assert a[..j + 1] == a[..j] + [false];
        ZerosAppend(j);
      }
      assert a[..] == a[..size];
      bits := a;
    }

    /** Whether `item` may have been added: all of its positions are set. */
    function Check(item: string): (r: bool)
      requires Valid() && scheme.Defined()
      reads bits
      ensures r <==> forall i :: 0 <= i < scheme.numHashes ==> bits[scheme.hash(item, i) % scheme.size]
    {
      AllSet(bits[..], scheme.Indices(item))
    }

    /** Sets every position of `item` and nothing else. */
    method Add(item: string)
      requires Valid() && scheme.Defined()
      modifies bits
      ensures bits[..] == SetBits(old(bits[..]), scheme.Indices(item))
      ensures Covers(old(bits[..]), bits[..])
      ensures CountSet(old(bits[..])) <= CountSet(bits[..]) <= CountSet(old(bits[..])) + scheme.numHashes
      ensures Check(item)
    {
      var idx := scheme.Indices(item);
      for k := 0 to |idx|
        invariant bits[..] == SetBits(old(bits[..]), idx[..k])
      {
        assert idx[..k + 1][..k] == idx[..k];
        bits[idx[k]] := true;
      }
      assert idx[..|idx|] == idx;
      SetBitsCovers(old(bits[..]), idx);
      SetBitsCountBound(old(bits[..]), idx);
    }
  }

  lemma ZerosAppend(n: nat)
    ensures Zeros(n + 1) == Zeros(n) + [false]
  {
    if n > 0 {
      ZerosAppend(n - 1);
    }
  }
}
