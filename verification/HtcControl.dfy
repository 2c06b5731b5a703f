/** The control word of a bucket: eight one-byte tags searched all at once.

    A 64-bit word is its eight bytes, lane 0 least significant.  Bitwise operators act lane by
    lane; the one operator that crosses lanes, subtraction, is written out with its borrow. */
module HtcControl {

  type Ctrl = w: seq<bv8> | |w| == 8 witness seq(8, i => 0)

  function CtrlSet(w: Ctrl, i: nat, p: bv8): (w': Ctrl)
    requires i < 8
  {
    w[i := p]
  }

  function CtrlClear(w: Ctrl, i: nat): (w': Ctrl)
    requires i < 8
  {
    w[i := 0]
  }

  /** ctrl ^ (0x0101010101010101 * p) */
  function Differences(w: Ctrl, p: bv8): (x: Ctrl) {
    seq(8, i requires 0 <= i < 8 => w[i] ^ p)
  }

  /** Whether x - 0x0101010101010101 borrows into lane i. */
  predicate Borrows(x: Ctrl, i: nat)
    requires i <= 8
  {
    i > 0 && (x[i - 1] == 0 || (Borrows(x, i - 1) && x[i - 1] == 1))
  }

  /** Lane i of x - 0x0101010101010101. */
  function Decremented(x: Ctrl, i: nat): (b: bv8)
    requires i < 8
  {
    if Borrows(x, i) then x[i] - 2 else x[i] - 1
  }

  /** Lane i of (x - 0x0101010101010101) & ~x & 0x8080808080808080 is not zero. */
  predicate Reported(x: Ctrl, i: nat)
    requires i < 8
  {
    Decremented(x, i) & !x[i] & 0x80 != 0
  }

  /** The SWAR search: the lanes that may hold p. */
  function Match8(w: Ctrl, p: bv8): (candidates: set<nat>)
    ensures forall i :: i in candidates ==> i < 8
  {
    set i: nat | i < 8 && Reported(Differences(w, p), i)
  }

  lemma {:induction false} ByteReported(x: bv8, borrow: bool)
    ensures x == 0 ==> (if borrow then x - 2 else x - 1) & !x & 0x80 != 0
    ensures (if borrow then x - 2 else x - 1) & !x & 0x80 != 0 ==> x == 0 || (borrow && x == 1)
  {
  }

  lemma {:induction false} ByteDiffers(a: bv8, p: bv8)
    ensures a ^ p == 0 <==> a == p
  {
  }

  /** The search may report too many lanes but never misses one. */
  lemma {:induction false} MatchNeverMisses(w: Ctrl, p: bv8, i: nat)
    requires i < 8 && w[i] == p
    ensures i in Match8(w, p)
  {
    ByteDiffers(w[i], p);
    ByteReported(Differences(w, p)[i], Borrows(Differences(w, p), i));
  }

  /** A borrow starts at a lane that holds p. */
  lemma {:induction false} BorrowOrigin(w: Ctrl, p: bv8, i: nat)
    requires i <= 8 && Borrows(Differences(w, p), i)
    ensures exists j :: 0 <= j < i && w[j] == p
  {
    ByteDiffers(w[i - 1], p);
    if w[i - 1] != p {
      BorrowOrigin(w, p, i - 1);
    }
  }

  /** The lowest reported lane does hold p: false reports only follow a true match. */
  lemma {:induction false} LowestIsExact(w: Ctrl, p: bv8, i: nat)
    requires i in Match8(w, p) && forall j :: 0 <= j < i ==> j !in Match8(w, p)
    ensures w[i] == p
  {
    var x := Differences(w, p);
    ByteDiffers(w[i], p);
    ByteReported(x[i], Borrows(x, i));
    if Borrows(x, i) {
      BorrowOrigin(w, p, i);
      var j :| 0 <= j < i && w[j] == p;
      MatchNeverMisses(w, p, j);
    }
  }

  /** ctz of the candidate mask, in lanes. */
  function Lowest(candidates: set<nat>, from: nat): (i: nat)
    requires forall c :: c in candidates ==> c < 8
    requires from < 8 && exists c :: c in candidates && from <= c
    ensures i in candidates && from <= i && forall j :: from <= j < i ==> j !in candidates
    decreases 8 - from
  {
    if from in candidates then from else Lowest(candidates, from + 1)
  }
}
