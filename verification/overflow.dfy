/** The transaction counter as the source declares it: a signed 32-bit
    integer incremented without an overflow check. After 2^31 - 1 commands
    the next id is negative, and the 2^32-th command of a session gets the
    id "0", which the read loop treats as the notification id. */
module Overflow {
  import opened Envelopes
  import opened Ids
  import opened Routing

  const MinInt32: int := -0x8000_0000
  const MaxInt32: int := 0x7FFF_FFFF
  const Modulus: int := 0x1_0000_0000

  predicate InInt32(x: int) {
    MinInt32 <= x <= MaxInt32
  }

  /** `x++` on a C# `int` in an unchecked context: the successor, except
      that the largest value steps to the smallest. */
  function Increment32(x: int): (y: int)
    requires InInt32(x)
    ensures InInt32(y)
    ensures (y - (x + 1)) % Modulus == 0
  {
    if x == MaxInt32 then MinInt32 else x + 1
  }

  /** `int.ToString()`: an optional minus sign, then the decimal digits. */
  function Int32ToString(x: int): (s: string)
    requires InInt32(x)
    ensures s == Sentinel <==> x == 0
    ensures x < 0 <==> (|s| > 0 && s[0] == '-')
  {
    if x < 0 then "-" + DecimalString(-x) else DecimalString(x)
  }

  /** The counter's value after `k` commands, starting from 0. */
  function CounterAfter(k: nat): (c: int)
    ensures InInt32(c)
  {
    if k == 0 then 0 else Increment32(CounterAfter(k - 1))
  }

  /** Reference definition: the member of the int32 range congruent to `x`
      modulo 2^32. */
  function Wrap32(x: int): (y: int)
    ensures InInt32(y)
    ensures (y - x) % Modulus == 0
  {
    (x - MinInt32) % Modulus + MinInt32
  }

  /** Two int32 values congruent modulo 2^32 are equal. */
  lemma CongruentInRangeEqual(a: int, b: int)
    requires InInt32(a) && InInt32(b)
    requires (a - b) % Modulus == 0
    ensures a == b
  {
    var q := (a - b) / Modulus;
    assert a - b == q * Modulus;
  }

  /** Incrementing commutes with wrapping. */
  lemma IncrementWraps(x: int)
    ensures Increment32(Wrap32(x)) == Wrap32(x + 1)
  {
    var w := Wrap32(x);
    var q := (w - x) / Modulus;
    assert w - x == q * Modulus;
    var y := Increment32(w);
    var p := (y - (w + 1)) / Modulus;
    assert y - (w + 1) == p * Modulus;
    assert y - (x + 1) == (p + q) * Modulus;
    var z := Wrap32(x + 1);
    var r := (z - (x + 1)) / Modulus;
    assert z - (x + 1) == r * Modulus;
    assert y - z == (p + q - r) * Modulus;
    CongruentInRangeEqual(y, z);
  }

  /** The counter after `k` commands is `k` wrapped into the int32 range. */
  lemma {:induction false} CounterAfterWraps(k: nat)
    ensures CounterAfter(k) == Wrap32(k)
  {
    if k == 0 {
      CongruentInRangeEqual(Wrap32(0), 0);
    } else {
      CounterAfterWraps(k - 1);
      IncrementWraps(k - 1);
    }
  }

  /** The id the `k`-th command of a session is sent with. It is the
      notification id exactly when `k` is a multiple of 2^32. */
  function IssuedId32(k: nat): (id: string)
    requires 1 <= k
    ensures id == Sentinel <==> k % Modulus == 0
  {
    CounterAfterWraps(k);
    WrapIsZero(k);
    Int32ToString(CounterAfter(k))
  }

  /** Wrapping gives 0 exactly for the multiples of 2^32. */
  lemma WrapIsZero(k: int)
    ensures Wrap32(k) == 0 <==> k % Modulus == 0
  {
    var w := Wrap32(k);
    var q := (w - k) / Modulus;
    assert w - k == q * Modulus;
    if w == 0 {
      assert k == -q * Modulus;
    } else if k % Modulus == 0 {
      var p := k / Modulus;
      assert k == p * Modulus;
      assert w - 0 == (q + p) * Modulus;
      CongruentInRangeEqual(w, 0);
    }
  }

  /** Below the wrap, the `k`-th command's id is the decimal form of `k`,
      as the unbounded counter gives it. */
  lemma CounterBeforeWrap(k: nat)
    requires k <= MaxInt32
    ensures CounterAfter(k) == k
    ensures 1 <= k ==> IssuedId32(k) == DecimalString(k)
  {
    CounterAfterWraps(k);
    CongruentInRangeEqual(Wrap32(k), k);
  }

  /** The command after the 2^31 - 1 -th is sent with a negative id. */
  lemma WrapGoesNegative()
    ensures CounterAfter(MaxInt32 + 1) == MinInt32
    ensures IssuedId32(MaxInt32 + 1)[0] == '-'
  {
    CounterBeforeWrap(MaxInt32);
  }

  /** The 2^32-th command is sent with the notification id, and then no
      stream of lines ever delivers a response to it: every reply is raised
      as a notification and the caller waits for ever. */
  lemma WrapAllocatesSentinel(lines: seq<Line>)
    ensures IssuedId32(Modulus) == Sentinel
    ensures Delivered(lines, IssuedId32(Modulus)) == []
    ensures FirstFinal(Delivered(lines, IssuedId32(Modulus))).None?
  {
  }
}
