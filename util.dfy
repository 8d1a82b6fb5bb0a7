/**
 * The `util` object: the identifier generator, the plural helper and the
 * two-mode accessor of the browser's key-value store.
 */
module Util {

  // ---------------------------------------------------------------- uuid

  const Hex: string := "0123456789abcdef"

  /** `n.toString(16)` for a single hex digit. */
  function HexDigit(n: int): char
    requires 0 <= n < 16
  {
    Hex[n]
  }

  /**
   * The 32 draws of `Math.random() * 16 | 0` that one call of `uuid` makes,
   * one per loop iteration: each an integer in 0..15.
   */
  predicate IsNibbles(ns: seq<int>) {
    |ns| == 32 && forall k :: 0 <= k < 32 ==> 0 <= ns[k] < 16
  }

  /**
   * The number iteration `k` turns into a hex digit: 4 at iteration 12 (the
   * version), `random & 3 | 8` at iteration 16 (the variant), the draw itself
   * otherwise.
   */
  function Emitted(ns: seq<int>, k: nat): (v: int)
    requires IsNibbles(ns) && k < 32
    ensures 0 <= v < 16
  {
    if k == 12 then 4
    else if k == 16 then (((ns[16] as bv8) & 3) | 8) as int
    else ns[k]
  }

  /** Length of the string after `k` iterations of the loop (a hyphen precedes iterations 8, 12, 16 and 20). */
  function LengthAfter(k: nat): nat {
    k + (if k > 8 then 1 else 0) + (if k > 12 then 1 else 0)
      + (if k > 16 then 1 else 0) + (if k > 20 then 1 else 0)
  }

  /** Where in the finished string the digit of iteration `k` stands. */
  function Position(k: nat): nat {
    LengthAfter(k + 1) - 1
  }

  /** The groups of the canonical 8-4-4-4-12 layout are separated by hyphens at these positions. */
  predicate IsHyphenPosition(p: int) {
    p == 8 || p == 13 || p == 18 || p == 23
  }

  /** The character at position `p` of the identifier built from `ns`, read off the 8-4-4-4-12 layout. */
  function UuidChar(ns: seq<int>, p: nat): char
    requires IsNibbles(ns) && p < 36
  {
    if IsHyphenPosition(p) then '-'
    else
      var k := p - (if p > 8 then 1 else 0) - (if p > 13 then 1 else 0)
                 - (if p > 18 then 1 else 0) - (if p > 23 then 1 else 0);
      HexDigit(Emitted(ns, k))
  }

  /**
   * The identifier `uuid` returns for the draws `ns`: 36 characters, hyphens
   * between the groups, the version digit `4`, a variant digit whose two high
   * bits are `10`, and every other position the hex digit of its own draw.
   */
  function UuidOf(ns: seq<int>): (r: string)
    requires IsNibbles(ns)
    ensures |r| == 36
    ensures r[8] == '-' && r[13] == '-' && r[18] == '-' && r[23] == '-'
    ensures r[14] == '4'
    ensures r[19] in "89ab"
    ensures forall k :: 0 <= k < 32 && k != 12 && k != 16 ==> r[Position(k)] == HexDigit(ns[k])
    ensures forall p :: 0 <= p < 36 && !IsHyphenPosition(p) ==> r[p] in Hex
  {
    var r := seq(36, p requires 0 <= p < 36 => UuidChar(ns, p));
    assert r[19] == HexDigit(Emitted(ns, 16));
    VariantDigit(ns[16]);
    r
  }

  /** `random & 3 | 8` for a draw in 0..15 is one of 8, 9, 10, 11. */
  lemma VariantDigit(random: int)
    requires 0 <= random < 16
    ensures 8 <= (((random as bv8) & 3) | 8) as int <= 11
  {
  }

  /** The loop of `uuid`: one hex digit per draw, with a hyphen before draws 8, 12, 16 and 20. */
  method Uuid(ns: seq<int>) returns (uuid: string)
    requires IsNibbles(ns)
    ensures uuid == UuidOf(ns)
  {
    uuid := "";
    for i := 0 to 32
      invariant |uuid| == LengthAfter(i)
      invariant forall p :: 0 <= p < |uuid| ==> uuid[p] == UuidChar(ns, p)
    {
      if i == 8 || i == 12 || i == 16 || i == 20 {
        uuid := uuid + "-";
      }
      uuid := uuid + [HexDigit(Emitted(ns, i))];
    }
  }

  // ----------------------------------------------------------- pluralize

  /** The word for a count: `word` for exactly one, `word` + "s" for anything else, zero included. */
  function Pluralize(count: int, word: string): (r: string)
    ensures r == word <==> count == 1
    ensures count != 1 ==> r == word + "s"
  {
    if count == 1 then word else word + "s"
  }

  // --------------------------------------------------------------- store

  /** The browser's key-value store as the program sees it: a list stored under each namespace. */
  type Slots<T> = map<string, seq<T>>

  /** `store(namespace)`: the list stored under `namespace`, or the empty list when nothing is. */
  function StoreRead<T>(slots: Slots<T>, namespace: string): (r: seq<T>)
    ensures namespace !in slots ==> r == []
  {
    if namespace in slots then slots[namespace] else []
  }

  /**
   * `store(namespace, data)`: overwrites one slot. A later read of that
   * namespace gives back `data`; every other namespace reads as before.
   */
  function StoreWrite<T>(slots: Slots<T>, namespace: string, data: seq<T>): (r: Slots<T>)
    ensures StoreRead(r, namespace) == data
    ensures forall other :: other != namespace ==> StoreRead(r, other) == StoreRead(slots, other)
    ensures r.Keys == slots.Keys + {namespace}
  {
    slots[namespace := data]
  }

}
