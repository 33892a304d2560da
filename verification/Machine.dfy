/** Fixed-width integers of the 32-bit target, and the small value types shared by every layer. */
module Machine {
  const WORD := 0x1_0000_0000
  const PAGE_SIZE := 4096

  type u8 = x: int | 0 <= x < 0x100
  type u16 = x: int | 0 <= x < 0x1_0000
  type u32 = x: int | 0 <= x < 0x1_0000_0000
  type u64 = x: int | 0 <= x < 0x1_0000_0000_0000_0000

  /** Unsigned 32-bit arithmetic keeps the low 32 bits. */
  function Wrap(x: int): u32 {
    x % WORD
  }

  datatype Option<+T> = None | Some(value: T)

  predicate InRange(b: nat, lo: nat, hi: nat) {
    lo <= b < hi
  }

  /** The blocks, bytes or pages numbered from lo up to but not including hi. */
  ghost function Interval(lo: nat, hi: nat): (r: set<nat>)
    ensures forall b :: b in r <==> lo <= b < hi
  {
    set b: nat | b < hi && InRange(b, lo, hi)
  }

  /** The least element of a non-empty set: what every first-fit search returns. */
  ghost predicate IsMin(s: set<nat>, m: nat) {
    m in s && forall x :: x in s ==> m <= x
  }

  lemma {:induction false} MinExists(s: set<nat>)
    requires s != {}
    ensures exists m :: IsMin(s, m)
    decreases |s|
  {
    var x :| x in s;
    if s == {x} {
      assert IsMin(s, x);
    } else {
      var rest := s - {x};
      assert s == rest + {x};
      MinExists(rest);
      var n :| IsMin(rest, n);
      assert IsMin(s, if n < x then n else x);
    }
  }

  ghost function Min(s: set<nat>): (m: nat)
    requires s != {}
    ensures IsMin(s, m)
  {
    MinExists(s);
    var m :| IsMin(s, m);
    m
  }
}
