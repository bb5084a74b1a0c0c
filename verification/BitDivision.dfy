/**
 Division of a bit string by x^16 + x^12 + x^5 + 1, a bit at a time: the arithmetic behind the CRC.

 A word is a sequence of bits, most significant first; a register is a word of sixteen.
 */
module BitDivision {

  type Word = seq<bool>

  function Zeros(n: nat): (r: Word)
    ensures |r| == n && forall i :: 0 <= i < n ==> !r[i]
  {
    seq(n, _ => false)
  }

  function Xor(a: Word, b: Word): (r: Word)
    requires |a| == |b|
    ensures |r| == |a| && forall i :: 0 <= i < |a| ==> r[i] == (a[i] != b[i])
  {
    seq(|a|, i requires 0 <= i < |a| => a[i] != b[i])
  }

  /** The generator without its leading term. */
  ghost predicate InGenerator(place: int) {
    place == 15 - 12 || place == 15 - 5 || place == 15
  }

  const GENERATOR: Word :=
    [false, false, false, true, false, false, false, false, false, false, true, false, false, false, false, true]

  lemma GeneratorTerms()
    ensures forall i :: 0 <= i < 16 ==> GENERATOR[i] == InGenerator(i)
  {
  }

  /** The register moves up one place; when a bit falls out, the generator is subtracted. */
  function Shift(r: Word): (s: Word)
    requires |r| == 16
    ensures |s| == 16
  {
    var up := r[1..] + [false];
    if r[0] then Xor(up, GENERATOR) else up
  }

  /** A bit of the message comes in at the top. */
  function Take(r: Word, b: bool): (s: Word)
    requires |r| == 16
    ensures |s| == 16
  {
    Shift(r[0 := r[0] != b])
  }

  /** The remainder register after the bits, first bit first. */
  function Divide(r: Word, bits: Word): (s: Word)
    requires |r| == 16
    ensures |s| == 16
    decreases |bits|
  {
    if bits == [] then r else Divide(Take(r, bits[0]), bits[1..])
  }

  lemma ShiftAt(r: Word)
    requires |r| == 16
    ensures forall i :: 0 <= i < 16 ==> Shift(r)[i] == ((i < 15 && r[i + 1]) != (r[0] && InGenerator(i)))
  {
    GeneratorTerms();
  }

  lemma {:induction false} DivideConcat(r: Word, a: Word, b: Word)
    requires |r| == 16
    ensures Divide(r, a + b) == Divide(Divide(r, a), b)
    decreases |a|
  {
    if a == [] {
      assert a + b == b;
    } else {
      assert (a + b)[1..] == a[1..] + b;
      DivideConcat(Take(r, a[0]), a[1..], b);
    }
  }

  // ---------- linearity ----------

  lemma TakeIsLinear(r: Word, s: Word, b: bool, c: bool)
    requires |r| == |s| == 16
    ensures Take(Xor(r, s), b != c) == Xor(Take(r, b), Take(s, c))
  {
    ShiftAt(r[0 := r[0] != b]);
    ShiftAt(s[0 := s[0] != c]);
    var t := Xor(r, s);
    ShiftAt(t[0 := t[0] != (b != c)]);
  }

  lemma {:induction false} DivideIsLinear(r: Word, s: Word, a: Word, b: Word)
    requires |r| == |s| == 16 && |a| == |b|
    ensures Divide(Xor(r, s), Xor(a, b)) == Xor(Divide(r, a), Divide(s, b))
    decreases |a|
  {
    if a != [] {
      TakeIsLinear(r, s, a[0], b[0]);
      assert Xor(a, b)[1..] == Xor(a[1..], b[1..]);
      DivideIsLinear(Take(r, a[0]), Take(s, b[0]), a[1..], b[1..]);
    }
  }

  // ---------- whole bytes ----------

  lemma TakeShifts(r: Word, bits: Word)
    requires |r| == 16 && 0 < |bits| <= 16
    ensures Take(Xor(r, bits + Zeros(16 - |bits|)), false) == Xor(Take(r, bits[0]), bits[1..] + Zeros(17 - |bits|))
  {
    var x := Xor(r, bits + Zeros(16 - |bits|));
    ShiftAt(x[0 := x[0] != false]);
    ShiftAt(r[0 := r[0] != bits[0]]);
  }

  /** Up to sixteen bits may as well be added at the top first and then moved out. */
  lemma {:induction false} Absorb(r: Word, bits: Word)
    requires |r| == 16 && |bits| <= 16
    ensures Divide(r, bits) == Divide(Xor(r, bits + Zeros(16 - |bits|)), Zeros(|bits|))
    decreases |bits|
  {
    if bits == [] {
      assert Xor(r, bits + Zeros(16)) == r;
    } else {
      TakeShifts(r, bits);
      assert Zeros(|bits|)[1..] == Zeros(|bits| - 1);
      Absorb(Take(r, bits[0]), bits[1..]);
    }
  }

  /** Nothing falls out of a register whose first bits are clear. */
  lemma {:induction false} ClearMovesUp(r: Word, n: nat)
    requires |r| == 16 && n <= 16 && forall i :: 0 <= i < n ==> !r[i]
    ensures Divide(r, Zeros(n)) == r[n..] + Zeros(n)
    decreases n
  {
    if n > 0 {
      var up := Take(r, false);
      assert up == r[1..] + [false];
      assert Zeros(n)[1..] == Zeros(n - 1);
      ClearMovesUp(up, n - 1);
      assert up[n - 1..] + Zeros(n - 1) == r[n..] + Zeros(n);
    } else {
      assert r[0..] + Zeros(0) == r;
    }
  }

  /** What the table is for: the effect of a byte splits into that of the first half and a move of the second. */
  lemma ByteSplits(r: Word, b: Word)
    requires |r| == 16 && |b| == 8
    ensures Divide(r, b) == Xor(r[8..] + Zeros(8), Divide(Xor(r[..8], b) + Zeros(8), Zeros(8)))
  {
    var high, low := Xor(r[..8], b) + Zeros(8), Zeros(8) + r[8..];
    Absorb(r, b);
    assert Xor(r, b + Zeros(8)) == Xor(low, high);
    assert Xor(Zeros(8), Zeros(8)) == Zeros(8);
    DivideIsLinear(low, high, Zeros(8), Zeros(8));
    ClearMovesUp(low, 8);
    assert low[8..] == r[8..];
  }

  // ---------- bursts ----------

  lemma TakeIsInjective(r: Word, s: Word, b: bool)
    requires |r| == |s| == 16 && Take(r, b) == Take(s, b)
    ensures r == s
  {
    var x, y := r[0 := r[0] != b], s[0 := s[0] != b];
    ShiftAt(x);
    ShiftAt(y);
    assert Shift(x)[15] == x[0] && Shift(y)[15] == y[0];
    assert forall i :: 1 <= i < 16 ==> Shift(x)[i - 1] == (x[i] != (x[0] && InGenerator(i - 1)));
    assert forall i :: 1 <= i < 16 ==> Shift(y)[i - 1] == (y[i] != (y[0] && InGenerator(i - 1)));
  }

  /** The same bits keep different registers different. */
  lemma {:induction false} DivideKeepsApart(r: Word, s: Word, bits: Word)
    requires |r| == |s| == 16 && r != s
    ensures Divide(r, bits) != Divide(s, bits)
    decreases |bits|
  {
    if bits != [] {
      if Take(r, bits[0]) == Take(s, bits[0]) { TakeIsInjective(r, s, bits[0]); }
      DivideKeepsApart(Take(r, bits[0]), Take(s, bits[0]), bits[1..]);
    }
  }

  /** The last `n` bits of the two registers are the same. */
  ghost predicate SameLow(r: Word, s: Word, n: int)
    requires |r| == |s| == 16
  {
    forall i :: 16 - n <= i < 16 && 0 <= i ==> r[i] == s[i]
  }

  lemma TakeShowsLow(r: Word, s: Word, b: bool, c: bool, n: nat)
    requires |r| == |s| == 16 && 1 <= n <= 16 && SameLow(Take(r, b), Take(s, c), n)
    ensures SameLow(r, s, n - 1) && (r[0] != b) == (s[0] != c)
  {
    var x, y := r[0 := r[0] != b], s[0 := s[0] != c];
    ShiftAt(x);
    ShiftAt(y);
    assert Shift(x)[15] == x[0] && Shift(y)[15] == y[0];
    forall i | 17 - n <= i < 16 ensures r[i] == s[i] {
      assert Shift(x)[i - 1] == (x[i] != (x[0] && InGenerator(i - 1)));
      assert Shift(y)[i - 1] == (y[i] != (y[0] && InGenerator(i - 1)));
    }
  }

  /** Registers that `k` more bits bring together agree in their last `16 - k` places already. */
  lemma {:induction false} MeetingShowsLow(r: Word, s: Word, a: Word, b: Word)
    requires |r| == |s| == 16 && |a| == |b| <= 16 && Divide(r, a) == Divide(s, b)
    ensures SameLow(r, s, 16 - |a|)
    decreases |a|
  {
    if a != [] {
      MeetingShowsLow(Take(r, a[0]), Take(s, b[0]), a[1..], b[1..]);
      TakeShowsLow(r, s, a[0], b[0], 17 - |a|);
    }
  }

  /** One register and two different strings of at most sixteen bits never end together. */
  lemma {:induction false} ShortStringsSeparate(r: Word, a: Word, b: Word)
    requires |r| == 16 && |a| == |b| <= 16 && a != b
    ensures Divide(r, a) != Divide(r, b)
    decreases |a|
  {
    if Divide(r, a) == Divide(r, b) {
      MeetingShowsLow(Take(r, a[0]), Take(r, b[0]), a[1..], b[1..]);
      TakeShowsLow(r, r, a[0], b[0], 17 - |a|);
      assert a[0] == b[0];
      assert a == [a[0]] + a[1..] && b == [b[0]] + b[1..];
      ShortStringsSeparate(Take(r, a[0]), a[1..], b[1..]);
      assert false;
    }
  }

  /** Two bit strings that agree outside a window of sixteen consecutive bits. */
  ghost predicate DifferInWindow(a: Word, b: Word, start: nat) {
    && |a| == |b|
    && forall i :: 0 <= i < |a| && !(start <= i < start + 16) ==> a[i] == b[i]
  }

  lemma SamePieces(a: Word, b: Word, p: nat, q: nat)
    requires |a| == |b| && p <= q <= |a| && a[..p] == b[..p] && a[p..q] == b[p..q] && a[q..] == b[q..]
    ensures a == b
  {
    assert a == a[..p] + a[p..q] + a[q..];
    assert b == b[..p] + b[p..q] + b[q..];
  }

  lemma DivideInThree(r: Word, a: Word, p: nat, q: nat)
    requires |r| == 16 && p <= q <= |a|
    ensures Divide(r, a) == Divide(Divide(Divide(r, a[..p]), a[p..q]), a[q..])
  {
    assert a == a[..q] + a[q..] && a[..q] == a[..p] + a[p..q];
    DivideConcat(r, a[..q], a[q..]);
    DivideConcat(r, a[..p], a[p..q]);
  }

  /** A burst of up to sixteen bits, anywhere in strings of any length, changes the remainder. */
  lemma BurstChangesRemainder(r: Word, a: Word, b: Word, start: nat)
    requires |r| == 16 && DifferInWindow(a, b, start) && a != b
    ensures Divide(r, a) != Divide(r, b)
  {
    var p := if start < |a| then start else |a|;
    var q := if start + 16 < |a| then start + 16 else |a|;
    var s := Divide(r, a[..p]);
    var x, y := a[p..q], b[p..q];
    assert a[..p] == b[..p] && a[q..] == b[q..];
    DivideInThree(r, a, p, q);
    DivideInThree(r, b, p, q);
    if x == y { SamePieces(a, b, p, q); }
    ShortStringsSeparate(s, x, y);
    DivideKeepsApart(Divide(s, x), Divide(s, y), a[q..]);
  }
}
