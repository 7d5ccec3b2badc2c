/** Machine words and a few facts about sequences and memory that several models share. */
module Words {

  datatype Option<T> = None | Some(value: T)

  const TWO_32 := 0x1_0000_0000
  const TWO_64 := 0x1_0000_0000_0000_0000

  type uint16 = x: int | 0 <= x < 0x1_0000
  type uint32 = x: int | 0 <= x < 0x1_0000_0000

  function Min(a: int, b: int): int {
    if a < b then a else b
  }

  function Max(a: int, b: int): int {
    if a < b then b else a
  }

  /** The `DIV_CEIL` macro. */
  function DivCeil(a: nat, b: nat): nat
    requires b > 0
  {
    a / b + if a % b != 0 then 1 else 0
  }

  function Pow2(k: nat): (p: nat)
    ensures p > 0
  {
    if k == 0 then 1 else 2 * Pow2(k - 1)
  }

  /** The numbers from `lo` up to but not including `hi`. */
  function Range(lo: nat, hi: nat): (r: seq<nat>)
    requires lo <= hi
    ensures |r| == hi - lo
    ensures forall i :: 0 <= i < |r| ==> r[i] == lo + i
  {
    seq(hi - lo, i requires 0 <= i => lo + i)
  }

  lemma {:induction false} RangeOnce(n: nat)
    ensures forall x: nat :: multiset(Range(0, n))[x] == if x < n then 1 else 0
  {
    if n == 0 {
      assert Range(0, 0) == [];
    } else {
      RangeOnce(n - 1);
      var last: nat := n - 1;
      assert Range(0, n) == Range(0, last) + [last];
      assert multiset(Range(0, n)) == multiset(Range(0, last)) + multiset{last};
    }
  }

  /** `memmove` within one array. */
  method MemMove<T>(a: array<T>, dst: nat, src: nat, n: nat)
    requires dst + n <= a.Length && src + n <= a.Length
    modifies a
    ensures a[dst..dst + n] == old(a[src..src + n])
    ensures forall k :: 0 <= k < a.Length && !(dst <= k < dst + n) ==> a[k] == old(a[k])
  {
    forall k | dst <= k < dst + n {
      a[k] := a[k - dst + src];
    }
  }
}
