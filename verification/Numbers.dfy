/** Numbers as text, printed through a digit buffer filled from the right (drivers/screen.c:176-203). */
module Numbers {
  import opened Machine
  import opened Arithmetic
  import opened Bits
  import opened Screen

  const ZERO: u8 := 0x30
  const LETTER_A: u8 := 0x61
  const MINUS: u8 := 0x2D

  type i32 = x: int | -0x8000_0000 <= x < 0x8000_0000

  /** possibleChars[d] */
  function DigitChar(d: nat): u8
    requires d < 16
  {
    if d < 10 then ZERO + d else LETTER_A + (d - 10)
  }

  function DigitOf(c: u8): int {
    if c < LETTER_A then c - ZERO else c - LETTER_A + 10
  }

  function Digits(n: nat, radix: nat): (text: seq<u8>)
    requires 2 <= radix <= 16
    decreases n
  {
    if n == 0 then []
    else
      Shrinks(n, radix);
      Digits(n / radix, radix) + [DigitChar(n % radix)]
  }

  /** What print_number prints. */
  function NumberText(num: i32, radix: nat, isSigned: bool): (text: seq<u8>)
    requires 2 <= radix <= 16
  {
    (if isSigned && num < 0 then [MINUS] else []) + (if Wrap(num) == 0 then [ZERO] else Digits(Wrap(num), radix))
  }

  lemma Shrinks(n: nat, radix: nat)
    requires n > 0 && radix >= 2
    ensures 0 <= n / radix <= n / 2 && 0 <= n % radix < radix
  {
    assert Times(n / radix, 2) == 2 * (n / radix) && Times(n / radix, 2) == Times(2, n / radix);
    assert Times(n / radix, radix) == Times(radix, n / radix);
    hide Times;
    Divided(n, radix);
    ProductGrows(2, radix, n / radix);
  }

  // ----- digit by digit -----

  function Power(b: nat, e: nat): (p: nat)
    requires b > 0
    ensures p > 0
  {
    if e == 0 then 1
    else
      Positive(Power(b, e - 1), b);
      Times(Power(b, e - 1), b)
  }

  /** The digit i places from the right is the one for that power of the radix. */
  lemma {:induction false} DigitAt(n: nat, radix: nat, i: nat)
    requires 2 <= radix <= 16 && i < |Digits(n, radix)|
    ensures Digits(n, radix)[|Digits(n, radix)| - 1 - i] == "0123456789abcdef"[n / Power(radix, i) % radix] as u8
    decreases i
  {
    hide Times;
    Shrinks(n, radix);
    if i > 0 {
      DigitAt(n / radix, radix, i - 1);
      DivideTwice(n, radix, Power(radix, i - 1));
    } else {
      assert "0123456789abcdef"[n % radix] as u8 == DigitChar(n % radix);
    }
  }

  // ----- reading a printed number -----

  /** The number a reader of the text understands. */
  function Value(text: seq<u8>, radix: nat): int
    decreases |text|
  {
    if text == [] then 0
    else Times(Value(text[..|text| - 1], radix), radix) + DigitOf(text[|text| - 1])
  }

  function Parse(text: seq<u8>, radix: nat): int {
    if text != [] && text[0] == MINUS then -Value(text[1..], radix) else Value(text, radix)
  }

  lemma {:induction false} DigitsValue(n: nat, radix: nat)
    requires 2 <= radix <= 16
    ensures Value(Digits(n, radix), radix) == n
    decreases n
  {
    hide Times;
    if n > 0 {
      Shrinks(n, radix);
      DigitsValue(n / radix, radix);
      Divided(n, radix);
      assert DigitOf(DigitChar(n % radix)) == n % radix;
      var text := Digits(n, radix);
      assert text[..|text| - 1] == Digits(n / radix, radix);
    }
  }

  /** No number starts with a zero digit, and k bits need at most k digits. */
  lemma {:induction false} DigitsAreShort(n: nat, radix: nat, k: nat)
    requires 2 <= radix <= 16 && n < Pow2(k)
    ensures |Digits(n, radix)| <= k
    ensures n > 0 ==> |Digits(n, radix)| > 0 && Digits(n, radix)[0] > ZERO
    ensures forall i :: 0 <= i < |Digits(n, radix)| ==> ZERO <= Digits(n, radix)[i]
    decreases n
  {
    if n > 0 {
      Shrinks(n, radix);
      assert k > 0;
      DigitsAreShort(n / radix, radix, k - 1);
      if n / radix == 0 {
        Divided(n, radix);
      }
    }
  }

  /**
   * The text reads back as the number that was meant for every unsigned number and every non-negative
   * one. A negative number is printed as a minus sign before its 32-bit pattern, which is the right
   * magnitude for one number only.
   */
  lemma NumberTextMeansIff(num: i32, radix: nat, isSigned: bool)
    requires 2 <= radix <= 16
    ensures Parse(NumberText(num, radix, isSigned), radix)
         == (if isSigned && num < 0 then -(Wrap(num) as int) else Wrap(num))
    ensures Parse(NumberText(num, radix, true), radix) == num <==> num >= 0 || num == -0x8000_0000
  {
    hide Times, Digits, Value;
    ReadsBack(num, radix, isSigned);
    ReadsBack(num, radix, true);
  }

  lemma ReadsBack(num: i32, radix: nat, isSigned: bool)
    requires 2 <= radix <= 16
    ensures Parse(NumberText(num, radix, isSigned), radix)
         == (if isSigned && num < 0 then -(Wrap(num) as int) else Wrap(num))
  {
    hide Times, Digits, Value;
    var digits := if Wrap(num) == 0 then [ZERO] else Digits(Wrap(num), radix);
    DigitsValue(Wrap(num), radix);
    ZeroValue(radix);
    Pow2Of32();
    DigitsAreShort(Wrap(num), radix, 32);
    assert digits[0] != MINUS;
    if isSigned && num < 0 {
      assert ([MINUS] + digits)[1..] == digits;
    } else {
      assert [] + digits == digits;
    }
  }

  lemma ZeroValue(radix: nat)
    ensures Value([ZERO], radix) == 0
  {
    assert Value([], radix) == 0 && Times(0, radix) == 0;
  }

  // ----- the loop -----

  const BUFFER_SIZE := 65

  /** print_number */
  method PrintNumber(display: Display, num: i32, radix: nat, isSigned: bool)
    requires display.Valid() && 2 <= radix <= 16
    modifies display`cursor, display.video
    ensures display.Valid()
    ensures display.Contents() == PutAll(old(display.Contents()), NumberText(num, radix, isSigned))
  {
    hide Put, Digits, Times;
    ghost var start := display.Contents();
    ghost var sign: seq<u8> := if isSigned && num < 0 then [MINUS] else [];
    assert PutAll(start, []) == start;
    var unum: nat := Wrap(num);
    if isSigned && num < 0 {
      display.PrintChar(MINUS, -1, -1);
      assert [MINUS][..0] == [];
    }
    assert display.Contents() == PutAll(start, sign);
    if unum == 0 {
      display.PrintChar(ZERO, -1, -1);
      assert (sign + [ZERO])[..|sign|] == sign;
      return;
    }
    var buffer, pos := FillBuffer(unum, radix);
    PrintBuffer(display, buffer, pos, start, sign, Digits(unum, radix));
  }

  lemma NoDigits(radix: nat)
    requires 2 <= radix <= 16
    ensures Digits(0, radix) == []
  {
  }

  lemma LastDigit(n: nat, radix: nat)
    requires 2 <= radix <= 16 && n > 0
    ensures 0 <= n % radix < radix && Digits(n, radix) == Digits(n / radix, radix) + [DigitChar(n % radix)]
  {
    Shrinks(n, radix);
  }

  /** The digits in front of position 63, and zeros elsewhere; they never reach the start of the buffer. */
  method FillBuffer(n: u32, radix: nat) returns (buffer: array<u8>, pos: nat)
    requires 2 <= radix <= 16
    ensures fresh(buffer) && buffer.Length == BUFFER_SIZE
    ensures 31 <= pos <= 63 && buffer[pos..63] == Digits(n, radix)
    ensures buffer[63] == 0 && forall j :: pos <= j < 63 ==> buffer[j] != 0
  {
    hide Times, Digits, Pow2;
    NoDigits(radix);
    buffer := new u8[BUFFER_SIZE](_ => 0);
    pos := 63;
    var unum: nat := n;
    Pow2Of32();
    DigitsAreShort(n, radix, 32);
    while unum != 0
      invariant pos <= 63 && buffer[63] == 0 && forall j :: pos <= j < 63 ==> buffer[j] != 0
      invariant Digits(n, radix) == Digits(unum, radix) + buffer[pos..63]
    {
      Shrinks(unum, radix);
      LastDigit(unum, radix);
      var remainder := unum % radix;
      ghost var before := buffer[pos..63];
      pos := pos - 1;
      buffer[pos] := DigitChar(remainder);
      assert buffer[pos..63] == [DigitChar(remainder)] + before;
      assert Digits(n, radix) == Digits(unum / radix, radix) + ([DigitChar(remainder)] + before);
      unum := unum / radix;
    }
  }

  /** The printing loop, which stops at the zero byte behind the digits. */
  method PrintBuffer(display: Display, buffer: array<u8>, pos: nat,
                     ghost start: View, ghost sign: seq<u8>, ghost digits: seq<u8>)
    requires display.Valid() && buffer != display.video && buffer.Length == BUFFER_SIZE
    requires pos <= 63 && buffer[pos..63] == digits && buffer[63] == 0
    requires forall j :: pos <= j < 63 ==> buffer[j] != 0
    requires start.Sane() && display.Contents() == PutAll(start, sign)
    modifies display`cursor, display.video
    ensures display.Valid() && display.Contents() == PutAll(start, sign + digits)
  {
    hide Put;
    var i := pos;
    assert sign + digits[..0] == sign;
    while buffer[i] != 0
      invariant pos <= i <= 63 && display.Valid()
      invariant buffer[pos..63] == digits && buffer[63] == 0
      invariant display.Contents() == PutAll(start, sign + digits[..i - pos])
      decreases 63 - i
    {
      var k := i - pos;
      assert digits[k] == buffer[i];
      var text := sign + digits[..k + 1];
      assert text[..|text| - 1] == sign + digits[..k];
      display.PrintChar(buffer[i], -1, -1);
      i := i + 1;
    }
    assert digits[..i - pos] == digits;
  }
}
