/**
 * Worker identities: generate_id reads the greatest worker_id (ORDER BY
 * worker_id DESC on a text column, so the lexicographically greatest string),
 * parses it as a decimal number, adds one and formats the result as a
 * nine-digit zero-padded decimal string.
 */
module WorkerIds {
  import opened Tables
  import opened Seqs

  predicate AllDigits(s: string)
  {
    forall i :: 0 <= i < |s| ==> IsDigit(s[i])
  }

  function DigitValue(c: char): nat
    requires IsDigit(c)
  {
    (c as int) - ('0' as int)
  }

  function DigitChar(d: nat): (c: char)
    requires d < 10
    ensures IsDigit(c) && DigitValue(c) == d
  {
    (('0' as int) + d) as char
  }

  function Pow10(k: nat): (p: nat)
    ensures p >= 1
  {
    if k == 0 then 1 else 10 * Pow10(k - 1)
  }

  /** The number a string of decimal digits denotes, most significant digit first. */
  function Value(s: string): nat
    requires AllDigits(s)
  {
    if s == [] then 0 else Value(s[..|s| - 1]) * 10 + DigitValue(s[|s| - 1])
  }

  /** int() applied to a stored worker id; None where it raises (the model accepts plain digit strings only). */
  function ParseId(s: string): Option<nat>
  {
    if s != [] && AllDigits(s) then Some(Value(s)) else None
  }

  /** The decimal digits of n, without leading zeros ("0" for zero). */
  function Digits(n: nat): (r: string)
    ensures |r| >= 1 && AllDigits(r)
  {
    if n < 10 then [DigitChar(n)] else Digits(n / 10) + [DigitChar(n % 10)]
  }

  function Zeros(k: nat): (r: string)
    ensures |r| == k && AllDigits(r)
  {
    seq(k, _ => '0')
  }

  /** f"{n:09d}": the digits of n, left-padded with zeros to nine characters. */
  function Format9(n: nat): string
  {
    var d := Digits(n);
    if |d| < 9 then Zeros(9 - |d|) + d else d
  }

  /** A worker id as generate_id writes it for a number below a billion. */
  predicate IsCanonical(s: string)
  {
    |s| == 9 && AllDigits(s)
  }

  lemma {:induction false} ValueOfDigits(n: nat)
    ensures Value(Digits(n)) == n
  {
    if n >= 10 {
      ValueOfDigits(n / 10);
      var d := Digits(n);
      assert d[..|d| - 1] == Digits(n / 10);
    }
  }

  lemma {:induction false} DigitsLength(n: nat, k: nat)
    requires 1 <= k && n < Pow10(k)
    ensures |Digits(n)| <= k
  {
    if n >= 10 {
      DigitsLength(n / 10, k - 1);
    }
  }

  lemma {:induction false} ValueOfZeros(k: nat)
    ensures Value(Zeros(k)) == 0
  {
    if k > 0 {
      assert Zeros(k)[..k - 1] == Zeros(k - 1);
      ValueOfZeros(k - 1);
    }
  }

  /** Leading zeros do not change the value. */
  lemma {:induction false} ValueZeroPadded(k: nat, s: string)
    requires AllDigits(s)
    ensures AllDigits(Zeros(k) + s) && Value(Zeros(k) + s) == Value(s)
    decreases |s|
  {
    if s == [] {
      assert Zeros(k) + s == Zeros(k);
      ValueOfZeros(k);
    } else {
      assert (Zeros(k) + s)[..|Zeros(k) + s| - 1] == Zeros(k) + s[..|s| - 1];
      ValueZeroPadded(k, s[..|s| - 1]);
    }
  }

  /** Parsing a formatted id gives back the number; below a billion the id has exactly nine digits. */
  lemma FormatThenParse(n: nat)
    ensures ParseId(Format9(n)) == Some(n)
    ensures n < 1000000000 ==> IsCanonical(Format9(n))
  {
    var d := Digits(n);
    ValueOfDigits(n);
    if |d| < 9 {
      ValueZeroPadded(9 - |d|, d);
    }
    if n < 1000000000 {
      assert Pow10(9) == 1000000000;
      DigitsLength(n, 9);
    }
  }

  /** The id of the first worker ever registered. */
  lemma FirstId()
    ensures Format9(0) == "000000000"
  {
    assert Digits(0) == "0";
    assert Zeros(8) + "0" == "000000000";
  }

  // ---------------------------------------------------------------- text ordering

  /** `a` sorts at or before `b` when strings are compared character by character. */
  predicate LexLe(a: string, b: string)
  {
    a == [] || (b != [] && (a[0] < b[0] || (a[0] == b[0] && LexLe(a[1..], b[1..]))))
  }

  lemma {:induction false} LexTotal(a: string, b: string)
    ensures LexLe(a, b) || LexLe(b, a)
  {
    if a != [] && b != [] && a[0] == b[0] {
      LexTotal(a[1..], b[1..]);
    }
  }

  lemma {:induction false} LexTrans(a: string, b: string, c: string)
    requires LexLe(a, b) && LexLe(b, c)
    ensures LexLe(a, c)
  {
    if a != [] && b != [] && c != [] && a[0] == b[0] && b[0] == c[0] {
      LexTrans(a[1..], b[1..], c[1..]);
    }
  }

  lemma LexTransAll(xs: seq<string>, m: string, y: string)
    requires forall x :: x in xs ==> LexLe(x, m)
    requires LexLe(m, y)
    ensures forall x :: x in xs ==> LexLe(x, y)
  {
    forall x | x in xs ensures LexLe(x, y) {
      LexTrans(x, m, y);
    }
  }

  /** The first row of ORDER BY worker_id DESC: the greatest id in text order. */
  function MaxLex(ids: seq<string>): (r: string)
    requires |ids| > 0
    ensures r in ids
    ensures forall x :: x in ids ==> LexLe(x, r)
  {
    if |ids| == 1 then
      LexTotal(ids[0], ids[0]);
      ids[0]
    else
      var m := MaxLex(ids[1..]);
      assert forall x :: x in ids ==> x == ids[0] || x in ids[1..];
      LexTotal(ids[0], m);
      if LexLe(ids[0], m) then m
      else
        LexTotal(ids[0], ids[0]);
        LexTransAll(ids[1..], m, ids[0]);
        ids[0]
  }

  lemma {:induction false} ValueFront(s: string)
    requires |s| >= 1 && AllDigits(s)
    ensures AllDigits(s[1..])
    ensures Value(s) == DigitValue(s[0]) * Pow10(|s| - 1) + Value(s[1..])
    decreases |s|
  {
    if |s| > 1 {
      var init, tail := s[..|s| - 1], s[1..];
      ValueFront(init);
      assert tail[..|tail| - 1] == init[1..];
      assert tail[|tail| - 1] == s[|s| - 1];
      assert Value(tail) == Value(init[1..]) * 10 + DigitValue(s[|s| - 1]);
      assert Value(s) == Value(init) * 10 + DigitValue(s[|s| - 1]);
      ShiftDigit(DigitValue(s[0]), Pow10(|s| - 2), Value(init[1..]), DigitValue(s[|s| - 1]));
    } else {
      assert s[1..] == [];
    }
  }

  lemma ShiftDigit(d: nat, p: nat, r: nat, last: nat)
    ensures (d * p + r) * 10 + last == d * (10 * p) + (r * 10 + last)
  {
  }

  lemma {:induction false} ValueBound(s: string)
    requires AllDigits(s)
    ensures Value(s) < Pow10(|s|)
    decreases |s|
  {
    if s != [] {
      ValueBound(s[..|s| - 1]);
    }
  }

  lemma MulMono(x: nat, y: nat, p: nat)
    requires x <= y
    ensures x * p <= y * p
  {
  }

  lemma LeadingArith(da: nat, db: nat, p: nat, ra: nat, rb: nat)
    requires da < db && ra < p
    ensures da * p + ra < db * p + rb
  {
    MulMono(da + 1, db, p);
    assert (da + 1) * p == da * p + p;
  }

  /** Between digit strings of one length, a smaller leading digit means a smaller number. */
  lemma LeadingDigitDecides(a: string, b: string)
    requires AllDigits(a) && AllDigits(b) && |a| == |b| >= 1 && a[0] < b[0]
    ensures Value(a) < Value(b)
  {
    ValueFront(a);
    ValueFront(b);
    ValueBound(a[1..]);
    LeadingArith(DigitValue(a[0]), DigitValue(b[0]), Pow10(|a| - 1), Value(a[1..]), Value(b[1..]));
  }

  /** For digit strings of one length, text order is numeric order. */
  lemma {:induction false} LexMatchesValue(a: string, b: string)
    requires AllDigits(a) && AllDigits(b) && |a| == |b|
    ensures LexLe(a, b) <==> Value(a) <= Value(b)
    decreases |a|
  {
    if a != [] {
      if a[0] == b[0] {
        ValueFront(a);
        ValueFront(b);
        LexMatchesValue(a[1..], b[1..]);
      } else if a[0] < b[0] {
        LeadingDigitDecides(a, b);
      } else {
        LeadingDigitDecides(b, a);
      }
    }
  }

  /**
   * The id generate_id computes from the existing ids: "000000000" for an
   * empty table, otherwise the greatest id plus one, or None where int()
   * raises.
   */
  function NextId(ids: seq<WorkerId>): Option<WorkerId>
  {
    if ids == [] then Some(Format9(0))
    else match ParseId(MaxLex(ids))
         case None => None
         case Some(n) => Some(Format9(n + 1))
  }

  /**
   * While every id has the canonical nine-digit form, generate_id succeeds
   * and yields a number greater than every existing id, so a new id never
   * collides with an existing one.
   */
  lemma NextIdFresh(ids: seq<WorkerId>)
    requires forall x :: x in ids ==> IsCanonical(x)
    ensures NextId(ids).Some?
    ensures ids == [] ==> NextId(ids).value == "000000000"
    ensures NextId(ids).value !in ids
    ensures ParseId(NextId(ids).value).Some?
    ensures forall x :: x in ids ==> ParseId(x).Some? && ParseId(x).value < ParseId(NextId(ids).value).value
  {
    if ids == [] {
      FirstId();
      FormatThenParse(0);
    } else {
      var m := MaxLex(ids);
      var n := Value(m);
      FormatThenParse(n + 1);
      forall x | x in ids ensures ParseId(x).Some? && ParseId(x).value < n + 1 {
        LexMatchesValue(x, m);
      }
    }
  }
}
