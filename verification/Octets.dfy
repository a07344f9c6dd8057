/** Byte strings, and the string operations the SCRAM code uses on them. */
module Octets {
  import opened Wrappers

  type Octet = c: char | c as int < 256 witness 'a'
  type Bytes = seq<Octet>

  // ---- XOR -----------------------------------------------------------------

  /** Bitwise exclusive or of the `k` low bits. */
  function XorBits(a: nat, b: nat, k: nat): nat {
    if k == 0 then 0 else (a + b) % 2 + 2 * XorBits(a / 2, b / 2, k - 1)
  }

  function Pow2(k: nat): nat {
    if k == 0 then 1 else 2 * Pow2(k - 1)
  }

  lemma {:induction false} XorBitsBound(a: nat, b: nat, k: nat)
    ensures XorBits(a, b, k) < Pow2(k)
  {
    if k > 0 {
      XorBitsBound(a / 2, b / 2, k - 1);
    }
  }

  lemma {:induction false} XorBitsCancels(a: nat, b: nat, k: nat)
    requires a < Pow2(k)
    ensures XorBits(b, XorBits(a, b, k), k) == a
    ensures XorBits(a, b, k) == XorBits(b, a, k)
  {
    if k > 0 {
      XorBitsCancels(a / 2, b / 2, k - 1);
      LowBit(a, b, XorBits(a / 2, b / 2, k - 1));
    }
  }

  lemma LowBit(a: nat, b: nat, high: nat)
    ensures var x := (a + b) % 2 + 2 * high; x / 2 == high && (b + x) % 2 == a % 2
  {
  }

  function XorOctet(a: Octet, b: Octet): Octet {
    var x := XorBits(a as int, b as int, 8);
    assert x < 256 by { XorBitsBound(a as int, b as int, 8); assert Pow2(8) == 256; }
    x as char
  }

  /** `bytes(a ^ b for a, b in zip(x, y))`: as long as the shorter operand. */
  function Xor(x: Bytes, y: Bytes): (r: Bytes)
    ensures |r| == if |x| <= |y| then |x| else |y|
    ensures forall i :: 0 <= i < |r| ==> r[i] == XorOctet(x[i], y[i])
  {
    if x == [] || y == [] then [] else [XorOctet(x[0], y[0])] + Xor(x[1..], y[1..])
  }

  predicate Bit(a: nat, k: nat) { if k == 0 then a % 2 == 1 else Bit(a / 2, k - 1) }

  lemma BitOf(low: nat, high: nat, k: nat)
    requires low < 2
    ensures Bit(low + 2 * high, k) <==> if k == 0 then low == 1 else Bit(high, k - 1)
  {
    var x := low + 2 * high;
    assert x / 2 == high && x % 2 == low;
  }

  lemma Parity(a: nat, b: nat)
    ensures (a + b) % 2 == 1 <==> (a % 2 == 1) != (b % 2 == 1)
  {
  }

  lemma {:induction false} XorBitsAt(a: nat, b: nat, n: nat, k: nat)
    requires k < n
    ensures Bit(XorBits(a, b, n), k) <==> Bit(a, k) != Bit(b, k)
  {
    var low, high := (a + b) % 2, XorBits(a / 2, b / 2, n - 1);
    assert XorBits(a, b, n) == low + 2 * high;
    if k > 0 {
      XorBitsAt(a / 2, b / 2, n - 1, k - 1);
    }
    hide XorBits;
    BitOf(low, high, k);
    Parity(a, b);
  }

  /** Bit for bit, as long as the shorter operand. */
  lemma XorIs(x: Bytes, y: Bytes, i: nat, k: nat)
    requires i < |x| && i < |y| && k < 8
    ensures |Xor(x, y)| == if |x| <= |y| then |x| else |y|
    ensures Bit(Xor(x, y)[i] as int, k) <==> Bit(x[i] as int, k) != Bit(y[i] as int, k)
  {
    XorBitsAt(x[i] as int, y[i] as int, 8, k);
    XorOctetIs(x[i], y[i]);
    hide XorBits, Bit, XorOctet;
    assert Xor(x, y)[i] == XorOctet(x[i], y[i]);
  }

  lemma XorOctetIs(a: Octet, b: Octet)
    ensures XorOctet(a, b) as int == XorBits(a as int, b as int, 8)
  {
    XorBitsBound(a as int, b as int, 8);
    assert Pow2(8) == 256;
    hide XorBits;
  }

  lemma XorOctetSolves(a: Octet, b: Octet, c: Octet)
    ensures XorOctet(b, c) == a <==> c == XorOctet(a, b)
  {
    assert Pow2(8) == 256;
    XorBitsCancels(a as int, b as int, 8);
    XorBitsCancels(c as int, b as int, 8);
    XorBitsCancels(b as int, c as int, 8);
    XorBitsBound(a as int, b as int, 8);
    XorBitsBound(b as int, c as int, 8);
  }

  /** For a key `x` and a mask `y` of one length: masking gives back the key exactly when it is
      applied to something that starts with the masked key. */
  lemma XorUnmasks(x: Bytes, y: Bytes, z: Bytes)
    requires |x| == |y|
    ensures Xor(y, z) == x <==> |z| >= |x| && z[..|x|] == Xor(x, y)
  {
    if |z| >= |x| {
      forall i | 0 <= i < |x| ensures Xor(y, z)[i] == x[i] <==> z[..|x|][i] == Xor(x, y)[i] {
        XorOctetSolves(x[i], y[i], z[i]);
      }
      assert Xor(y, z) == x <==> forall i :: 0 <= i < |x| ==> Xor(y, z)[i] == x[i];
      assert z[..|x|] == Xor(x, y) <==> forall i :: 0 <= i < |x| ==> z[..|x|][i] == Xor(x, y)[i];
    }
  }

  // ---- Leftmost replacement ------------------------------------------------

  /** `s.replace(pattern, replacement)`: leftmost, non-overlapping. */
  function Replace(s: Bytes, pattern: Bytes, replacement: Bytes): Bytes
    requires pattern != []
  {
    if s == [] then []
    else if pattern <= s then replacement + Replace(s[|pattern|..], pattern, replacement)
    else [s[0]] + Replace(s[1..], pattern, replacement)
  }

  // ---- Decimal numerals ----------------------------------------------------

  predicate IsDigit(c: Octet) { '0' <= c <= '9' }

  /** `str(n).encode()` */
  function Decimal(n: int): (r: Bytes)
    decreases n < 0, if n < 0 then 0 else n
  {
    if n < 0 then "-" + Decimal(-n)
    else if n < 10 then [(n + '0' as int) as char]
    else Decimal(n / 10) + [(n % 10 + '0' as int) as char]
  }

  /** `int(s)` on a string of digits. */
  function Numeral(s: Bytes): nat
    requires forall c | c in s :: IsDigit(c)
  {
    if s == [] then 0 else
      assert IsDigit(s[|s| - 1]);
      10 * Numeral(s[..|s| - 1]) + (s[|s| - 1] as int - '0' as int)
  }

  lemma {:induction false} DecimalIsNumeral(n: nat)
    ensures Decimal(n) != [] && forall c | c in Decimal(n) :: IsDigit(c)
    ensures Numeral(Decimal(n)) == n
  {
    var last := (n % 10 + '0' as int) as char;
    if n < 10 {
      assert Decimal(n)[..0] == [];
    } else {
      DecimalIsNumeral(n / 10);
      assert Decimal(n)[..|Decimal(n)| - 1] == Decimal(n / 10);
    }
  }

  lemma NegativeDecimal(n: int)
    requires n < 0
    ensures Decimal(n) != [] && Decimal(n)[0] == '-'
  {
  }

  // ---- Scanning ------------------------------------------------------------

  /** Length of the longest prefix whose elements all satisfy `p`. */
  function Span<T>(s: seq<T>, p: T -> bool): (n: nat)
    ensures n <= |s|
    ensures forall i :: 0 <= i < n ==> p(s[i])
    ensures n < |s| ==> !p(s[n])
  {
    if s == [] || !p(s[0]) then 0 else 1 + Span(s[1..], p)
  }

  /** What is left of `s` after the literal `lit`. */
  function Literal(s: Bytes, lit: Bytes): Option<Bytes> {
    if lit <= s then Some(s[|lit|..]) else None
  }

  /** A greedy, non-empty run of a character class, and what is left after it. */
  function Run(s: Bytes, p: Octet -> bool): Option<(Bytes, Bytes)> {
    var n := Span(s, p);
    if n == 0 then None else Some((s[..n], s[n..]))
  }

  lemma LiteralSplits(s: Bytes, lit: Bytes, rest: Bytes)
    ensures Literal(s, lit) == Some(rest) <==> s == lit + rest
  {
    if s == lit + rest {
      assert s[|lit|..] == rest;
    }
  }

  ghost predicate All(s: Bytes, p: Octet -> bool) { forall i :: 0 <= i < |s| ==> p(s[i]) }

  ghost predicate Stops(s: Bytes, p: Octet -> bool) { s == [] || !p(s[0]) }

  /** A run is the only way to split `s` into class characters and a remainder that does not
      start with one. */
  lemma RunSplits(s: Bytes, p: Octet -> bool, run: Bytes, rest: Bytes)
    ensures Run(s, p) == Some((run, rest)) <==>
            s == run + rest && run != [] && All(run, p) && Stops(rest, p)
  {
    var n := Span(s, p);
    if Run(s, p) == Some((run, rest)) {
      assert s == run + rest;
    }
    if s == run + rest && run != [] && All(run, p) && Stops(rest, p) {
      assert forall i :: 0 <= i < |run| ==> p(s[i]) by {
        assert forall i :: 0 <= i < |run| ==> s[i] == run[i];
      }
      assert rest != [] ==> s[|run|] == rest[0];
      assert n == |run|;
    }
  }
}
