/** `addToNamespace` from the getters' tests: add a signed integer to a
    namespace read as one big-endian unsigned number, byte by byte with a
    carry (or borrow), and report an overflow when the carry survives the
    most significant byte. */
module Getters {
  import opened Common

  function Pow256(k: nat): (p: nat)
    ensures p >= 1
  {
    if k == 0 then 1 else 256 * Pow256(k - 1)
  }

  /** The number a byte string denotes, most significant byte first. */
  function FromBE(s: seq<byte>): (v: nat)
    ensures v < Pow256(|s|)
  {
    if s == [] then 0 else FromBE(s[..|s| - 1]) * 256 + s[|s| - 1]
  }

  /** `v` written in `n` big-endian bytes. */
  function ToBE(v: nat, n: nat): (s: seq<byte>)
    requires v < Pow256(n)
    ensures |s| == n && FromBE(s) == v
  {
    if n == 0 then []
    else
      var s := ToBE(v / 256, n - 1) + [v % 256];
      assert s[..n - 1] == ToBE(v / 256, n - 1);
      s
  }

  /** Every byte string is the big-endian form of its value. */
  lemma {:induction false} ToBEFromBE(s: seq<byte>)
    ensures ToBE(FromBE(s), |s|) == s
  {
    if s != [] {
      ToBEFromBE(s[..|s| - 1]);
    }
  }

  /** The bytes of `b` are the low digits of `a + b`. */
  lemma {:induction false} FromBEAppend(a: seq<byte>, b: seq<byte>)
    ensures FromBE(a + b) == FromBE(a) * Pow256(|b|) + FromBE(b)
    decreases |b|
  {
    if b == [] {
      assert a + b == a;
    } else {
      var b' := b[..|b| - 1];
      assert (a + b)[..|a + b| - 1] == a + b';
      assert FromBE(a + b) == FromBE(a + b') * 256 + b[|b| - 1];
      assert FromBE(b) == FromBE(b') * 256 + b[|b| - 1];
      FromBEAppend(a, b');
      ShiftByte(FromBE(a), Pow256(|b'|), FromBE(b'));
    }
  }

  lemma ShiftByte(x: nat, p: nat, y: nat)
    ensures (x * p + y) * 256 == x * (256 * p) + y * 256
  {
  }

  /** Leading zero bytes do not change the value. */
  lemma FromBELeadingZeros(z: seq<byte>, s: seq<byte>)
    requires forall k :: 0 <= k < |z| ==> z[k] == 0
    ensures FromBE(z + s) == FromBE(s)
  {
    FromBEAppend(z, s);
    ZerosAreZero(z);
  }

  lemma {:induction false} ZerosAreZero(z: seq<byte>)
    requires forall k :: 0 <= k < |z| ==> z[k] == 0
    ensures FromBE(z) == 0
  {
    if z != [] {
      ZerosAreZero(z[..|z| - 1]);
    }
  }

  lemma {:induction false} AllOnesIsMax(s: seq<byte>)
    requires forall k :: 0 <= k < |s| ==> s[k] == 0xFF
    ensures FromBE(s) == Pow256(|s|) - 1
  {
    if s != [] {
      AllOnesIsMax(s[..|s| - 1]);
    }
  }

  /** The byte at `i` weighs 256^(number of bytes after it). */
  lemma FromBESuffix(x: seq<byte>, i: nat)
    requires i < |x|
    ensures FromBE(x[i..]) == x[i] * Pow256(|x| - 1 - i) + FromBE(x[i + 1..])
  {
    assert x[i..] == [x[i]] + x[i + 1..];
    FromBEAppend([x[i]], x[i + 1..]);
    assert FromBE([x[i]]) == x[i] by {
      assert [x[i]][..0] == [];
    }
  }

  /** Go's `-val` on an `int`: the negation of the minimum wraps to itself. */
  function Negate(x: int64): (r: int64)
    ensures (r + x) % 0x1_0000_0000_0000_0000 == 0
  {
    if x == -0x8000_0000_0000_0000 then x else -x
  }

  /** Go's `uint64(x)`: the two's-complement bits read as unsigned. */
  function Uint64(x: int64): (u: nat)
    ensures u < Pow256(8)
    ensures x >= 0 ==> u == x
    ensures x < 0 ==> u == x + 0x1_0000_0000_0000_0000
  {
    assert Pow256(8) == 0x1_0000_0000_0000_0000;
    x % 0x1_0000_0000_0000_0000
  }

  /** The magnitude the source writes into the last 8 bytes is `|val|`,
      also for the most negative `int`, where the two wrap-arounds cancel. */
  lemma AddendIsMagnitude(val: int64)
    requires val != 0
    ensures Uint64(if val > 0 then val else Negate(val)) == if val > 0 then val as int else -(val as int)
  {
  }

  /** What `addToNamespace` promises: the sum when it fits in `|ns|` bytes,
      an overflow otherwise; a zero addend returns the namespace itself. */
  function AddSpec(ns: seq<byte>, val: int): (r: Result<seq<byte>>)
    ensures r.Ok? <==> 0 <= FromBE(ns) + val < Pow256(|ns|)
    ensures r.Ok? ==> |r.value| == |ns| && FromBE(r.value) == FromBE(ns) + val
    ensures r.Err? ==> r.error == NamespaceOverflow
  {
    if val == 0 then Ok(ns)
    else if 0 <= FromBE(ns) + val < Pow256(|ns|) then Ok(ToBE(FromBE(ns) + val, |ns|))
    else Err(NamespaceOverflow)
  }

  /** `binary.BigEndian.PutUint64(b[off:], v)`. */
  method PutUint64(b: array<byte>, off: nat, v: nat)
    requires off + 8 <= b.Length && v < Pow256(8)
    modifies b
    ensures b[..] == old(b[..off]) + ToBE(v, 8) + old(b[off + 8..])
  {
    var be := ToBE(v, 8);
    forall k | 0 <= k < 8 {
      b[off + k] := be[k];
    }
    assert b[..] == old(b[..off]) + be + old(b[off + 8..]);
  }

  /** `x` or `-x`, for adding or for subtracting. */
  function Signed(positive: bool, x: int): int {
    if positive then x else -x
  }

  /** What a carry of -1, 0 or 1 into the byte with `k` bytes after it is
      worth. */
  function CarryWeight(carry: int, k: nat): int {
    if carry > 0 then Pow256(k) else if carry < 0 then -(Pow256(k) as int) else 0
  }

  /** The sum read in the done suffix, plus the pending carry, is the sum of
      the suffixes of the operands. */
  ghost predicate SuffixSum(ns: seq<byte>, addend: seq<byte>, res: seq<byte>, i: nat, positive: bool, carry: int)
    requires |ns| == |addend| == |res| && i <= |ns|
  {
    FromBE(res[i..]) + CarryWeight(carry, |ns| - i) == FromBE(ns[i..]) + Signed(positive, FromBE(addend[i..]))
  }

  /** One iteration of the loop: writing byte `i` and the new carry keeps
      the suffix sum, one byte further to the left. */
  lemma CarryStep(ns: seq<byte>, addend: seq<byte>, res: seq<byte>, i: nat, positive: bool,
                  carry: int, carry': int, digit: byte)
    requires |ns| == |addend| == |res| && i < |ns|
    requires carry == -1 || carry == 0 || carry == 1
    requires carry' == -1 || carry' == 0 || carry' == 1
    requires digit + 256 * carry' == ns[i] + Signed(positive, addend[i]) + carry
    requires SuffixSum(ns, addend, res, i + 1, positive, carry)
    ensures SuffixSum(ns, addend, res[i := digit], i, positive, carry')
  {
    var res' := res[i := digit];
    var k := |ns| - 1 - i;
    var p := Pow256(k);
    assert res'[i + 1..] == res[i + 1..];
    FromBESuffix(res', i);
    FromBESuffix(ns, i);
    FromBESuffix(addend, i);
    var a: int, A: int := addend[i], FromBE(addend[i + 1..]);
    SignedDistributes(positive, a, p, A);
    CarryWeightIs(carry, k);
    CarryWeightIs(carry', k + 1);
    ColumnAtWeight(digit, carry', carry, ns[i], Signed(positive, a), p,
                   FromBE(res[i + 1..]), FromBE(ns[i + 1..]), Signed(positive, A));
  }

  lemma SignedDistributes(positive: bool, a: int, p: int, rest: int)
    ensures Signed(positive, a * p + rest) == Signed(positive, a) * p + Signed(positive, rest)
  {
    assert (-a) * p == -(a * p);
  }

  lemma CarryWeightIs(carry: int, k: nat)
    requires carry == -1 || carry == 0 || carry == 1
    ensures CarryWeight(carry, k) == carry * Pow256(k)
  {
  }

  /** Moving the column at weight `p` from the operands into the result:
      the arithmetic behind one iteration. */
  lemma ColumnAtWeight(digit: int, carry': int, carry: int, x: int, y: int, p: int,
                       doneSum: int, xRest: int, yRest: int)
    requires doneSum + carry * p == xRest + yRest
    requires digit + 256 * carry' == x + y + carry
    ensures digit * p + doneSum + carry' * (256 * p) == x * p + xRest + (y * p + yRest)
  {
    assert (digit + 256 * carry') * p == (x + y + carry) * p;
    assert (digit + 256 * carry') * p == digit * p + carry' * (256 * p);
    assert (x + y + carry) * p == x * p + y * p + carry * p;
  }

  /** After `PutUint64`, the zero-filled result holds `|val|`. */
  lemma AddendValue(addend: seq<byte>, val: int64)
    requires val != 0 && |addend| >= 8
    requires forall k :: 0 <= k < |addend| - 8 ==> addend[k] == 0
    requires addend[|addend| - 8..] == ToBE(Uint64(if val > 0 then val else Negate(val)), 8)
    ensures Signed(val > 0, FromBE(addend)) == val
  {
    var n := |addend|;
    AddendIsMagnitude(val);
    assert addend == addend[..n - 8] + addend[n - 8..];
    FromBELeadingZeros(addend[..n - 8], addend[n - 8..]);
  }

  /** `make([]byte, n)` followed by `PutUint64` of `|val|` into its last 8
      bytes. */
  method MakeAddend(n: nat, val: int64) returns (result: array<byte>)
    requires val != 0 && n >= 8
    ensures fresh(result) && result.Length == n
    ensures Signed(val > 0, FromBE(result[..])) == val
  {
    result := new byte[n](_ => 0);
    PutUint64(result, n - 8, Uint64(if val > 0 then val else Negate(val)));
    AddendValue(result[..], val);
  }

  /** One byte of the loop: the sum (or difference) of the two bytes and
      the incoming carry, kept to a byte, and the carry (or borrow) passed
      to the next byte. */
  method AddColumn(x: byte, y: byte, positive: bool, carry: int) returns (digit: byte, next: int)
    requires carry == -1 || carry == 0 || carry == 1
    ensures next == -1 || next == 0 || next == 1
    ensures digit + 256 * next == x + Signed(positive, y) + carry
  {
    var sum: int;
    if positive {
      sum := x + y + carry;
    } else {
      sum := x - y + carry;
    }
    if sum > 255 {
      next := 1;
      sum := sum - 256;
    } else if sum < 0 {
      next := -1;
      sum := sum + 256;
    } else {
      next := 0;
    }
    digit := sum;
  }

  /** The source's loop: fill `result` with `|val|` in its last 8 bytes, then
      walk from the last byte to the first, adding (or subtracting) byte by
      byte and carrying 1 (or borrowing 1) into the next byte. */
  method AddToNamespace(ns: seq<byte>, val: int64) returns (r: Result<seq<byte>>)
    requires val == 0 || |ns| >= 8
    ensures r == AddSpec(ns, val)
  {
    if val == 0 {
      return Ok(ns);
    }
    var n := |ns|;
    var result := MakeAddend(n, val);
    ghost var addend := result[..];
    ghost var positive := val > 0;

    var carry := 0;
    var i := n - 1;
    assert result[n..] == ns[n..] == addend[n..] == [];
    assert SuffixSum(ns, addend, result[..], i + 1, positive, carry);
    while i >= 0
      invariant -1 <= i < n
      invariant carry == -1 || carry == 0 || carry == 1
      invariant forall k :: 0 <= k <= i ==> result[k] == addend[k]
      invariant SuffixSum(ns, addend, result[..], i + 1, positive, carry)
      decreases i + 1
    {
      ghost var before := result[..];
      var digit, next := AddColumn(ns[i], result[i], val > 0, carry);
      CarryStep(ns, addend, before, i, positive, carry, next, digit);
      result[i] := digit;
      carry := next;
      assert result[..] == before[i := digit];
      i := i - 1;
    }
    assert i + 1 == 0;
    assert |ns| == |addend|;
    assert |addend| == |result[..]|;
    assert carry == -1 || carry == 0 || carry == 1;
    assert Signed(val > 0, FromBE(addend)) == val;
    FinalCarry(ns, addend, result[..], val, carry);
    if carry != 0 {
      return Err(NamespaceOverflow);
    }
    r := Ok(result[..]);
  }

  /** Once every byte is done, the carry left over decides between the sum
      and an overflow. */
  lemma FinalCarry(ns: seq<byte>, addend: seq<byte>, res: seq<byte>, val: int, carry: int)
    requires |ns| == |addend| == |res| && val != 0
    requires carry == -1 || carry == 0 || carry == 1
    requires Signed(val > 0, FromBE(addend)) == val
    requires SuffixSum(ns, addend, res, 0, val > 0, carry)
    ensures carry != 0 ==> AddSpec(ns, val) == Err(NamespaceOverflow)
    ensures carry == 0 ==> AddSpec(ns, val) == Ok(res)
  {
    assert res[0..] == res && ns[0..] == ns && addend[0..] == addend;
    if carry == 0 {
      ToBEFromBE(res);
    }
  }

  // The vectors of TestAddToNamespace, stated about the specification that
  // AddToNamespace meets.

  /** Ten bytes of 0x01 plus 42 end in 0x2b. */
  lemma PositiveValueAddition()
    ensures AddSpec(seq(10, _ => 1), 42) == Ok(seq(9, _ => 1) + [0x2b])
  {
    var head: seq<byte> := seq(9, _ => 1);
    var input, expected := head + [1], head + [0x2b];
    assert input == seq(10, _ => 1);
    FromBEAppend(head, [1]);
    FromBEAppend(head, [0x2b]);
    ToBEFromBE(expected);
  }

  /** Eleven bytes of 0x01 minus 42 end in 0x00, 0xd7. */
  lemma NegativeValueAddition()
    ensures AddSpec(seq(11, _ => 1), -42) == Ok(seq(9, _ => 1) + [0x00, 0xd7])
  {
    var head: seq<byte> := seq(9, _ => 1);
    var input, expected := head + [1, 1], head + [0x00, 0xd7];
    assert input == seq(11, _ => 1);
    FromBEAppend(head, [1, 1]);
    FromBEAppend(head, [0x00, 0xd7]);
    ToBEFromBE(expected);
  }

  /** All 0xFF plus one overflows. */
  lemma OverflowError()
    ensures AddSpec(seq(10, _ => 0xFF), 1) == Err(NamespaceOverflow)
  {
    AllOnesIsMax(seq(10, _ => 0xFF));
  }

  /** All zero minus one overflows (as an underflow). */
  lemma OverflowErrorNegative()
    ensures AddSpec(seq(10, _ => 0), -1) == Err(NamespaceOverflow)
  {
    ZerosAreZero(seq(10, _ => 0));
  }
}
