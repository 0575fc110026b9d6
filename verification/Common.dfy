/** Types that several parts of the model share. */
module Common {

  datatype Option<T> = None | Some(value: T)

  /** One more than the largest value of a 64-bit word. */
  const WORD: nat := 0x1_0000_0000_0000_0000

  /** One more than the largest value of a 32-bit word. */
  const U32: nat := 0x1_0000_0000

  /** Truncation to a 32-bit word. */
  function Wrap32(x: nat): nat {
    x % 0x1_0000_0000
  }

  /** Truncation to a 64-bit word. */
  function Wrap64(x: nat): nat {
    x % 0x1_0000_0000_0000_0000
  }

  type u32 = x: nat | x < 0x1_0000_0000

  type u64 = x: nat | x < 0x1_0000_0000_0000_0000

  type byte = bv8

  /** Memory as a map, so that a write anywhere is a state like any other. */
  type Memory = map<int, byte>

  predicate InSpan(a: int, at: int, len: int) {
    at <= a < at + len
  }

  predicate SameAt(m: Memory, m': Memory, a: int) {
    (a in m <==> a in m') && (a in m ==> m[a] == m'[a])
  }

  /** The first empty slot from `from` on, or the table size. */
  function FirstFree<T>(table: seq<Option<T>>, from: nat): (i: nat)
    requires from <= |table|
    ensures from <= i <= |table|
    ensures i < |table| ==> table[i].None?
    ensures forall j :: from <= j < i ==> table[j].Some?
    decreases |table| - from
  {
    if from == |table| || table[from].None? then from else FirstFree(table, from + 1)
  }

  function RemoveAt<T>(s: seq<T>, i: nat): (r: seq<T>)
    requires i < |s|
    ensures |r| == |s| - 1
  {
    s[..i] + s[i + 1..]
  }
}
