/**
 Numbers as text: `itoa` with its in-place reversal, and the numeric conversions of `printf`
 (student-distrib/lib.c, syscalls/ece391support.c).
 */
module Numbers {
  import opened Bytes

  const ZERO: byte := 48
  const MINUS: byte := 45
  const WORD := 0x1_0000_0000

  /** The lookup string "0123456789ABCDEFGHIJKLMNOPQRSTUVWXYZ". */
  function DigitChar(d: nat): byte
    requires d < 36
  {
    if d < 10 then 48 + d else 55 + d
  }

  lemma {:induction false} DigitIs(d: nat)
    requires d < 36
    ensures DigitChar(d) == "0123456789ABCDEFGHIJKLMNOPQRSTUVWXYZ"[d] as int
  {
    var table := "0123456789ABCDEFGHIJKLMNOPQRSTUVWXYZ";
    assert forall i :: 0 <= i < 10 ==> table[i] as int == 48 + i;
    assert forall i :: 10 <= i < 36 ==> table[i] as int == 55 + i;
  }

  /** What a digit character stands for; 36 for anything else. */
  function DigitValue(c: byte): nat {
    if 48 <= c <= 57 then c - 48 else if 65 <= c <= 90 then c - 55 else 36
  }

  predicate AllDigits(s: seq<byte>, radix: nat) {
    forall i :: 0 <= i < |s| ==> DigitValue(s[i]) < radix
  }

  /** Reading digits from the left, starting from `acc`. */
  function Parse(acc: nat, s: seq<byte>, radix: nat): nat
    decreases |s|
  {
    if s == [] then acc else Parse(acc * radix + DigitValue(s[0]), s[1..], radix)
  }

  /** A numeral: digits only, and no leading zero except for zero itself. */
  predicate Numeral(s: seq<byte>, radix: nat) {
    s != [] && AllDigits(s, radix) && (|s| > 1 ==> s[0] != ZERO)
  }

  function Reverse(s: seq<byte>): (r: seq<byte>)
    ensures |r| == |s|
  {
    if s == [] then [] else [s[|s| - 1]] + Reverse(s[..|s| - 1])
  }

  lemma {:induction false} ReverseAt(s: seq<byte>, i: nat)
    requires i < |s|
    ensures Reverse(s)[i] == s[|s| - 1 - i]
  {
    if i > 0 {
      ReverseAt(s[..|s| - 1], i - 1);
    }
  }

  // ----- there is one numeral per number -----

  lemma {:induction false} ParseSnoc(acc: nat, s: seq<byte>, c: byte, radix: nat)
    ensures Parse(acc, s + [c], radix) == Parse(acc, s, radix) * radix + DigitValue(c)
    decreases |s|
  {
    if s != [] {
      assert (s + [c])[0] == s[0] && (s + [c])[1..] == s[1..] + [c];
      ParseSnoc(acc * radix + DigitValue(s[0]), s[1..], c, radix);
    } else {
      assert [] + [c] == [c] && [c][1..] == [];
    }
  }

  function Pow(r: nat, k: nat): nat {
    if k == 0 then 1 else Pow(r, k - 1) * r
  }

  lemma {:induction false} Scale(a: nat, b: nat, r: nat)
    requires a >= b
    ensures a * r >= b * r
  {
    assert (a - b) * r >= 0;
  }

  /** Digits that do not start with zero denote at least radix to the power of their number less one. */
  lemma {:induction false} LengthBound(s: seq<byte>, radix: nat)
    requires s != [] && AllDigits(s, radix) && s[0] != ZERO
    ensures Parse(0, s, radix) >= Pow(radix, |s| - 1)
    decreases |s|
  {
    var init, c := s[..|s| - 1], s[|s| - 1];
    assert s == init + [c];
    ParseSnoc(0, init, c, radix);
    if |s| == 1 {
      assert init == [];
    } else {
      LengthBound(init, radix);
      Scale(Parse(0, init, radix), Pow(radix, |s| - 2), radix);
    }
  }

  lemma {:induction false} PowPositive(r: nat, k: nat)
    requires r >= 1
    ensures Pow(r, k) >= 1
  {
    if k > 0 {
      PowPositive(r, k - 1);
      Scale(Pow(r, k - 1), 1, r);
    }
  }

  /** Two numerals of the same number are the same: a number's text is determined. */
  lemma {:induction false} NumeralUnique(s: seq<byte>, t: seq<byte>, radix: nat)
    requires 2 <= radix <= 36 && Numeral(s, radix) && Numeral(t, radix)
    requires Parse(0, s, radix) == Parse(0, t, radix)
    ensures s == t
    decreases |s|
  {
    var s', c := s[..|s| - 1], s[|s| - 1];
    var t', d := t[..|t| - 1], t[|t| - 1];
    assert s == s' + [c] && t == t' + [d];
    ParseSnoc(0, s', c, radix);
    ParseSnoc(0, t', d, radix);
    DivMod(Parse(0, s', radix), radix, DigitValue(c));
    DivMod(Parse(0, t', radix), radix, DigitValue(d));
    assert c == d;
    if s' != [] {
      LengthBound(s', radix);
      PowPositive(radix, |s'| - 1);
    }
    if t' != [] {
      LengthBound(t', radix);
      PowPositive(radix, |t'| - 1);
    }
    if s' != [] && t' != [] {
      NumeralUnique(s', t', radix);
    }
  }

  // ----- the conversion -----

  /** The swap loop of `strrev`. */
  method SwapEnds(buf: array<byte>, base: nat, len: nat)
    requires base + len <= buf.Length
    modifies buf
    ensures forall k {:trigger buf[k]} :: 0 <= k < buf.Length ==>
      buf[k] == if base <= k < base + len then old(buf[2 * base + len - 1 - k]) else old(buf[k])
  {
    var i, j := 0, (len as int) - 1;
    while i < j
      invariant 0 <= i <= j + 2 && i + j + 1 == len
      invariant forall k {:trigger buf[k]} :: 0 <= k < buf.Length ==>
        buf[k] == if base <= k < base + i || base + j < k < base + len then old(buf[2 * base + len - 1 - k])
                  else old(buf[k])
    {
      var tmp := buf[base + j];
      buf[base + j] := buf[base + i];
      buf[base + i] := tmp;
      i := i + 1;
      j := j - 1;
    }
  }

  /** `strrev`. */
  method StrRev(buf: array<byte>, base: nat, ghost end: nat)
    requires StringIn(buf, base, end)
    modifies buf
    ensures buf[..] == Splice(old(buf[..]), base, Reverse(old(buf[base..end])))
  {
    var len := StrLen(buf, base, end);
    ghost var text := buf[base..end];
    SwapEnds(buf, base, len);
    forall k | base <= k < end
      ensures buf[k] == Reverse(text)[k - base]
    {
      ReverseAt(text, k - base);
    }
  }

  method PutDigit(buf: array<byte>, base: nat, p: nat, d: nat, ghost done: seq<byte>)
    requires base <= p < buf.Length && d < 36 && done == buf[base..p]
    modifies buf
    ensures buf[base..p + 1] == done + [DigitChar(d)]
    ensures forall k :: 0 <= k < buf.Length && !(base <= k < p + 1) ==> buf[k] == old(buf[k])
  {
    buf[p] := DigitChar(d);
  }

  /** The digit loop of `itoa`: lowest digit first. */
  method LowDigits(value: nat, buf: array<byte>, base: nat, radix: nat) returns (p: nat, ghost done: seq<byte>)
    requires 2 <= radix <= 36 && value > 0 && base + Places(value, radix) <= buf.Length
    modifies buf
    ensures base < p == base + Places(value, radix) && done == buf[base..p]
    ensures Parse(0, Reverse(done), radix) == value && AllDigits(done, radix) && done[|done| - 1] != ZERO
    ensures forall k :: 0 <= k < buf.Length && !(base <= k < p) ==> buf[k] == old(buf[k])
  {
    p := base;
    var v: nat := value;
    done := [];
    while v > 0
      invariant base <= p && p + Places(v, radix) == base + Places(value, radix)
      invariant done == buf[base..p] && Parse(v, Reverse(done), radix) == value && AllDigits(done, radix)
      invariant v == 0 ==> done != [] && done[|done| - 1] != ZERO
      invariant forall k :: 0 <= k < buf.Length && !(base <= k < p) ==> buf[k] == old(buf[k])
      decreases v
    {
      var q, d := DivideBy(v, radix);
      NextDigit(q, d, done, radix);
      DigitBack(d);
      PutDigit(buf, base, p, d, done);
      p := p + 1;
      done := done + [DigitChar(d)];
      v := q;
    }
  }

  /** One digit off the low end. */
  method DivideBy(v: nat, radix: nat) returns (q: nat, d: nat)
    requires radix >= 2 && v > 0
    ensures q * radix + d == v && d < radix && q < v && (q == 0 ==> d > 0)
    ensures Places(v, radix) == Places(q, radix) + 1
  {
    Quotient(v, radix);
    d := v % radix;
    q := v / radix;
  }

  /** How many digits the loop writes. */
  function Places(value: nat, radix: nat): nat
    requires radix >= 2
  {
    if value == 0 then 0 else Places(value / radix, radix) + 1
  }

  lemma {:induction false} Quotient(v: nat, r: nat)
    requires r >= 2
    ensures v / r * r + v % r == v && v % r < r
    ensures v > 0 ==> v / r < v
  {
    var q := v / r;
    if q > 0 {
      assert q * r >= q * 2 by {
        Scale(r, 2, q);
      }
    }
  }

  lemma {:induction false} DigitBack(d: nat)
    requires d < 36
    ensures DigitValue(DigitChar(d)) == d
    ensures DigitChar(d) == ZERO <==> d == 0
  {
  }

  /** Taking the lowest digit off and putting it in front of those already taken. */
  lemma {:induction false} NextDigit(q: nat, d: nat, done: seq<byte>, radix: nat)
    requires d < 36
    ensures Parse(q, Reverse(done + [DigitChar(d)]), radix) == Parse(q * radix + d, Reverse(done), radix)
  {
    var c := DigitChar(d);
    var all := done + [c];
    assert all[..|all| - 1] == done && all[|all| - 1] == c;
    assert ([c] + Reverse(done))[1..] == Reverse(done);
    DigitBack(d);
  }

  lemma {:induction false} ReverseDigits(s: seq<byte>, radix: nat)
    requires AllDigits(s, radix)
    ensures AllDigits(Reverse(s), radix)
  {
    forall i | 0 <= i < |s|
      ensures DigitValue(Reverse(s)[i]) < radix
    {
      ReverseAt(s, i);
    }
  }

  /** `itoa`: leaves the numeral of the value, and its NUL, at `buf[base..]`. */
  method Itoa(value: nat, buf: array<byte>, base: nat, radix: nat) returns (ghost end: nat)
    requires 2 <= radix <= 36 && base + Max(Places(value, radix), 1) < buf.Length
    modifies buf
    ensures base < end == base + Max(Places(value, radix), 1) && buf[end] == NUL
    ensures Numeral(buf[base..end], radix) && Parse(0, buf[base..end], radix) == value
    ensures forall k :: 0 <= k < buf.Length && !(base <= k <= end) ==> buf[k] == old(buf[k])
  {
    if value == 0 {
      buf[base] := ZERO;
      buf[base + 1] := NUL;
      end := base + 1;
      assert buf[base..end] == [ZERO] && [ZERO][1..] == [];
      return;
    }
    var p;
    ghost var low;
    p, low := LowDigits(value, buf, base, radix);
    buf[p] := NUL;
    assert buf[base..p] == low;
    assert forall i :: base <= i < p ==> buf[i] == low[i - base];
    ghost var was := buf[..];
    StrRev(buf, base, p);
    end := p;
    assert buf[base..end] == Reverse(low);
    ReverseDigits(low, radix);
    ReverseAt(low, 0);
  }

  // ----- the conversions of printf -----

  lemma {:induction false} PlacesBound(v: nat, r: nat, k: nat)
    requires r >= 2 && v < Pow(r, k)
    ensures Places(v, r) <= k
    decreases k
  {
    if k > 0 && v > 0 {
      Quotient(v, r);
      var q, b := v / r, Pow(r, k - 1);
      if q >= b {
        Scale(q, b, r);
      }
      PlacesBound(q, r, k - 1);
    }
  }

  lemma {:induction false} WordPlaces(v: nat)
    requires v < WORD
    ensures Places(v, 16) <= 8 && Places(v, 10) <= 10
  {
    assert Pow(16, 2) == 256 && Pow(16, 4) == 65536;
    assert Pow(16, 6) == 16777216 && Pow(16, 8) == WORD;
    assert Pow(10, 2) == 100 && Pow(10, 4) == 10000 && Pow(10, 6) == 1000000;
    assert Pow(10, 8) == 100000000 && Pow(10, 10) == 10000000000;
    PlacesBound(v, 16, 8);
    PlacesBound(v, 10, 10);
  }

  lemma {:induction false} LeadingZeros(zeros: seq<byte>, s: seq<byte>, radix: nat)
    requires forall i :: 0 <= i < |zeros| ==> zeros[i] == ZERO
    ensures Parse(0, zeros + s, radix) == Parse(0, s, radix)
    decreases |zeros|
  {
    if zeros == [] {
      assert zeros + s == s;
    } else {
      var all := zeros + s;
      assert all[0] == ZERO && all[1..] == zeros[1..] + s;
      LeadingZeros(zeros[1..], s, radix);
    }
  }

  /** `%#x`: always eight hexadecimal digits, which denote the value. */
  method PrintPaddedHex(value: nat) returns (out: seq<byte>)
    requires value < WORD
    ensures |out| == 8 && AllDigits(out, 16) && Parse(0, out, 16) == value
  {
    WordPlaces(value);
    var buf := new byte[64];
    ghost var end := Itoa(value, buf, 8, 16);
    ghost var text := buf[8..end];
    DigitsNotNul(text, 16);
    assert forall i :: 8 <= i < end ==> buf[i] == text[i - 8];
    var start := StrLen(buf, 8, end);
    FillZeros(buf, start);
    out := buf[start..8 + start];
    forall i | 0 <= i < 8 - start
      ensures out[i] == ZERO
    {
      assert out[i] == buf[start + i];
    }
    forall i | 0 <= i < |text|
      ensures text[i] == out[8 - start + i]
    {
      assert buf[8 + i] == text[i];
      assert out[8 - start + i] == buf[start + (8 - start + i)];
    }
    Padded(out, 8 - start, text);
  }

  /** The padding loop: zeros up to index 8. */
  method FillZeros(buf: array<byte>, start: nat)
    requires start <= 8 <= buf.Length
    modifies buf
    ensures forall k :: 0 <= k < buf.Length ==> buf[k] == if start <= k < 8 then ZERO else old(buf[k])
  {
    var i := start;
    while i < 8
      invariant start <= i <= 8
      invariant forall k :: 0 <= k < buf.Length ==> buf[k] == if start <= k < i then ZERO else old(buf[k])
    {
      buf[i] := ZERO;
      i := i + 1;
    }
  }

  lemma {:induction false} Padded(out: seq<byte>, zeros: nat, text: seq<byte>)
    requires |out| == zeros + |text| && Numeral(text, 16)
    requires forall i :: 0 <= i < zeros ==> out[i] == ZERO
    requires forall i :: 0 <= i < |text| ==> text[i] == out[zeros + i]
    ensures AllDigits(out, 16) && Parse(0, out, 16) == Parse(0, text, 16)
  {
    LeadingZeros(out[..zeros], text, 16);
    assert out[..zeros] + text == out;
    forall i | 0 <= i < |out|
      ensures DigitValue(out[i]) < 16
    {
      if i >= zeros {
        assert out[i] == text[i - zeros];
      }
    }
  }

  lemma {:induction false} DigitsNotNul(s: seq<byte>, radix: nat)
    requires AllDigits(s, radix) && radix <= 36
    ensures NulFree(s)
  {
  }

  /** `%d`: a minus sign for a negative value, and the numeral of its magnitude. */
  method PrintDecimal(value: int) returns (out: seq<byte>)
    requires -0x8000_0000 <= value < 0x8000_0000
    ensures value >= 0 ==> Numeral(out, 10) && Parse(0, out, 10) == value
    ensures value < 0 ==> out != [] && out[0] == MINUS && Numeral(out[1..], 10) && Parse(0, out[1..], 10) == -value
  {
    var buf := new byte[36];
    if value < 0 {
      WordPlaces(-value);
      buf[0] := MINUS;
      ghost var end := Itoa(-value, buf, 1, 10);
      DigitsNotNul(buf[1..end], 10);
      assert forall i :: 1 <= i < end ==> buf[i] == buf[1..end][i - 1];
      var len := StrLen(buf, 0, end);
      out := buf[..len];
      assert out[1..] == buf[1..end];
    } else {
      WordPlaces(value);
      ghost var end := Itoa(value, buf, 0, 10);
      DigitsNotNul(buf[0..end], 10);
      assert forall i :: 0 <= i < end ==> buf[i] == buf[0..end][i];
      var len := StrLen(buf, 0, end);
      out := buf[..len];
      assert out == buf[0..end];
    }
  }
}
