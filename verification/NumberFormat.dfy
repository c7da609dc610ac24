/** Printing a whole number in a base from 2 to 16. */
module NumberFormat {
  import opened Basics

  const MAX_STR_SIZE: int := 64
  const REPRESENTATION: string := "0123456789abcdef"

  predicate IsInt32(v: int)
  {
    -UINT32 / 2 <= v < UINT32 / 2
  }

  /** A C int taken as unsigned, and an unsigned value stored back into an int. */
  function Unsigned(v: int): int
  {
    v % UINT32
  }

  function Signed(u: int): int
    requires 0 <= u < UINT32
  {
    if u < UINT32 / 2 then u else u - UINT32
  }

  /** An int stored as unsigned and back is itself, and an unsigned value is itself modulo 2^32. */
  lemma SignedIsInverse(v: int, u: int)
    requires IsInt32(v) && 0 <= u < UINT32
    ensures 0 <= Unsigned(v) < UINT32 && Signed(Unsigned(v)) == v
    ensures IsInt32(Signed(u)) && Unsigned(Signed(u)) == u
  {
  }

  // ---------- digits ----------

  function Digits(v: nat, base: nat): (ds: seq<nat>)
    requires base >= 2
    ensures ds != []
    decreases v
  {
    if v < base then [v]
    else
      QuotientShrinks(v, base);
      Digits(v / base, base) + [v % base]
  }

  lemma QuotientShrinks(v: nat, base: nat)
    requires 2 <= base <= v
    ensures 0 < v / base < v
    ensures v == v / base * base + v % base
  {
    var q := v / base;
    assert v == q * base + v % base;
    assert q >= 1;
    assert q * base >= q * 2;
  }

  function Value(ds: seq<nat>, base: nat): nat
  {
    if ds == [] then 0 else Value(ds[..|ds| - 1], base) * base + ds[|ds| - 1]
  }

  /** Digits below the base, and no leading zero but for zero itself. */
  predicate Canonical(ds: seq<nat>, base: nat)
  {
    && ds != []
    && (forall i :: 0 <= i < |ds| ==> ds[i] < base)
    && (ds[0] == 0 ==> |ds| == 1)
  }

  /** Reading the digits back gives the number. */
  lemma {:induction false} ReadBack(v: nat, base: nat)
    requires base >= 2
    ensures Value(Digits(v, base), base) == v
    ensures Canonical(Digits(v, base), base)
    ensures Digits(v, base)[0] == 0 <==> v == 0
    decreases v
  {
    if v < base {
      assert [v][..0] == [];
      assert Value([], base) * base == 0;
    } else {
      QuotientShrinks(v, base);
      var front := Digits(v / base, base);
      ReadBack(v / base, base);
      assert (front + [v % base])[..|front|] == front;
    }
  }

  lemma {:induction false} LeadingDigitCounts(ds: seq<nat>, base: nat)
    requires Canonical(ds, base) && ds[0] != 0 && base >= 2
    ensures Value(ds, base) > 0
  {
    if |ds| > 1 {
      LeadingDigitCounts(ds[..|ds| - 1], base);
      assert Value(ds[..|ds| - 1], base) * base > 0;
    }
  }

  /** There is no other way to write a number without leading zeros. */
  lemma {:induction false} DigitsAreUnique(ds: seq<nat>, base: nat)
    requires base >= 2 && Canonical(ds, base)
    ensures Digits(Value(ds, base), base) == ds
    decreases |ds|
  {
    var front, d := ds[..|ds| - 1], ds[|ds| - 1];
    if front == [] {
      assert Value(front, base) * base == 0;
      assert ds == [d];
    } else {
      DigitsAreUnique(front, base);
      LeadingDigitCounts(front, base);
      var q := Value(front, base);
      QuotientOf(q, d, base);
      assert q * base + d >= base;
      assert ds == front + [d];
    }
  }

  lemma QuotientOf(q: nat, d: nat, base: nat)
    requires d < base
    ensures (q * base + d) / base == q && (q * base + d) % base == d
    ensures q > 0 ==> q * base + d >= base
  {
    var v := q * base + d;
    var q2, d2 := v / base, v % base;
    assert v == q2 * base + d2;
    assert (q - q2) * base == d2 - d;
    assert q - q2 >= 1 ==> (q - q2) * base >= 1 * base;
    assert q - q2 <= -1 ==> (q2 - q) * base >= 1 * base;
    assert q > 0 ==> q * base >= base;
  }

  /** A number below 2^k has at most k digits in any base. */
  lemma {:induction false} DigitCount(v: nat, base: nat, k: nat)
    requires base >= 2 && k >= 1 && v < Pow2(k)
    ensures |Digits(v, base)| <= k
    decreases v
  {
    if v >= base {
      HalvesAtLeast(v, base);
      assert Pow2(k) == 2 * Pow2(k - 1) || k == 0;
      assert k > 1 by { assert Pow2(1) == 2 * Pow2(0) == 2; }
      DigitCount(v / base, base, k - 1);
    }
  }

  lemma HalvesAtLeast(v: nat, base: nat)
    requires 2 <= base <= v
    ensures 0 < v / base < v && v / base * 2 <= v
  {
    QuotientShrinks(v, base);
    TimesMore(v / base, 2, base);
  }

  lemma TimesMore(q: nat, a: nat, b: nat)
    requires a <= b
    ensures q * a <= q * b
  {
    assert q * (b - a) >= 0;
  }

  // ---------- the conversion ----------

  function Text(ds: seq<nat>): (t: string)
    requires forall i :: 0 <= i < |ds| ==> ds[i] < 16
    ensures |t| == |ds| && forall i :: 0 <= i < |ds| ==> t[i] == REPRESENTATION[ds[i]]
  {
    seq(|ds|, i requires 0 <= i < |ds| => REPRESENTATION[ds[i]])
  }

  function Printed(v: int, base: nat): string
    requires 2 <= base <= 16
  {
    ReadBack(Unsigned(v), base);
    Text(Digits(Unsigned(v), base))
  }

  /** The digit a character of the output stands for. */
  function DigitOf(c: char): nat
  {
    if '0' <= c <= '9' then c as int - '0' as int
    else if 'a' <= c <= 'f' then c as int - 'a' as int + 10
    else 16
  }

  function DigitsOf(t: string): (ds: seq<nat>)
    ensures |ds| == |t|
  {
    seq(|t|, i requires 0 <= i < |t| => DigitOf(t[i]))
  }

  /** The characters `0` to `9` and `a` to `f`, by their codes. */
  lemma RepresentationDigits(d: nat)
    requires d < 16
    ensures DigitOf(REPRESENTATION[d]) == d && REPRESENTATION[d] != '\0'
    ensures REPRESENTATION[d] as int == if d < 10 then 48 + d else 87 + d
  {
    assert REPRESENTATION == ['0', '1', '2', '3', '4', '5', '6', '7', '8', '9', 'a', 'b', 'c', 'd', 'e', 'f'];
  }

  /** Main result: the text printed for an int reads back as that int taken as unsigned, has
      no leading zero unless it is zero, and at most 32 characters. */
  lemma PrintedReadsBack(v: int, base: nat)
    requires IsInt32(v) && 2 <= base <= 16
    ensures Value(DigitsOf(Printed(v, base)), base) == if v < 0 then v + 0x1_0000_0000 else v
    ensures Printed(v, base)[0] == '0' <==> v == 0
    ensures 1 <= |Printed(v, base)| <= 32
    ensures forall i :: 0 <= i < |Printed(v, base)| ==> Printed(v, base)[i] != '\0'
  {
    hide Digits, Value;
    var ds := Digits(Unsigned(v), base);
    ReadBack(Unsigned(v), base);
    assert Pow2(32) == UINT32 by { PowersOfTwo(); }
    DigitCount(Unsigned(v), base, 32);
    forall i | 0 <= i < |ds|
      ensures DigitsOf(Printed(v, base))[i] == ds[i] && Printed(v, base)[i] != '\0'
    {
      RepresentationDigits(ds[i]);
    }
    assert DigitsOf(Printed(v, base)) == ds;
    RepresentationDigits(0);
  }

  lemma PowersOfTwo()
    ensures Pow2(32) == UINT32
  {
    assert Pow2(8) == 256;
    assert Pow2(16) == 65536;
    assert Pow2(24) == 16777216;
  }

  /** The digits are written backwards from the end of the buffer; the last cell stays null. */
  method ConvertToBase(buf: array<char>, value: int, base: nat) returns (end: nat)
    requires buf.Length == MAX_STR_SIZE && IsInt32(value) && 2 <= base <= 16
    modifies buf
    ensures 31 <= end < MAX_STR_SIZE - 1
    ensures buf[end..MAX_STR_SIZE - 1] == Printed(value, base)
    ensures buf[MAX_STR_SIZE - 1] == '\0'
  {
    hide Printed;
    forall i | 0 <= i < buf.Length {
      buf[i] := '\0';
    }
    end := MAX_STR_SIZE - 1;
    var v := value;
    ghost var whole := Printed(value, base);
    PrintedReadsBack(value, base);
    assert whole == Printed(v, base) + buf[end..MAX_STR_SIZE - 1];
    while true
      invariant IsInt32(v) && buf[MAX_STR_SIZE - 1] == '\0'
      invariant 31 <= end <= MAX_STR_SIZE - 1
      invariant whole == Printed(v, base) + buf[end..MAX_STR_SIZE - 1]
      decreases Unsigned(v)
    {
      PrintedStep(v, base);
      PrintedReadsBack(v, base);
      ghost var tail := buf[end..MAX_STR_SIZE - 1];
      var digit := Unsigned(v) % base;
      end := end - 1;
      buf[end] := REPRESENTATION[digit];
      assert buf[end..MAX_STR_SIZE - 1] == [REPRESENTATION[digit]] + tail;
      v := Signed(Unsigned(v) / base);
      if v == 0 {
        break;
      }
    }
  }

  lemma QuotientRange(u: nat, base: nat)
    requires u < UINT32 && 2 <= base
    ensures 0 <= u / base < UINT32 / 2
    ensures u / base > 0 ==> u / base < u
    ensures u / base == 0 <==> u < base
  {
    if u >= base {
      HalvesAtLeast(u, base);
    }
  }

  lemma DigitsStep(u: nat, base: nat)
    requires u < UINT32 && 2 <= base <= 16
    ensures Digits(u, base) == (if u < base then [] else Digits(u / base, base)) + [u % base]
  {
  }

  /** One round of the loop takes the last digit; the value stored back stays an int. */
  lemma PrintedStep(v: int, base: nat)
    requires IsInt32(v) && 2 <= base <= 16
    ensures var u := Unsigned(v); var rest := u / base;
            && 0 <= u % base < 16 && 0 <= rest < UINT32 / 2 && (rest > 0 ==> rest < u)
            && Printed(v, base) == (if rest == 0 then [] else Printed(rest, base)) + [REPRESENTATION[u % base]]
  {
    hide Digits;
    var u := Unsigned(v);
    QuotientRange(u, base);
    assert Unsigned(u / base) == u / base;
    DigitsStep(u, base);
    ReadBack(u, base);
    ReadBack(u / base, base);
  }

  /** `print_n`: the characters up to the null. */
  method PrintNumber(buf: array<char>, n: int, base: nat) returns (output: string)
    requires buf.Length == MAX_STR_SIZE && IsInt32(n) && 2 <= base <= 16
    modifies buf
    ensures output == Printed(n, base)
  {
    var rep := ConvertToBase(buf, n, base);
    PrintedReadsBack(n, base);
    assert forall k :: rep <= k < MAX_STR_SIZE - 1 ==> buf[k] == Printed(n, base)[k - rep];
    output := [];
    var i := rep;
    while buf[i] != '\0'
      invariant rep <= i < MAX_STR_SIZE
      invariant output == buf[rep..i]
      decreases MAX_STR_SIZE - i
    {
      output := output + [buf[i]];
      i := i + 1;
    }
  }
}
