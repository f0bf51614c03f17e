/**
 * Cell addresses (`Position`) and sheet sizes: validity bounds, the order used by the
 * sheet's ordered map and the "A1" text form (bijective base-26 column letters followed
 * by the 1-based decimal row number).
 */
module Structures {

  const MAX_ROWS: int := 16384
  const MAX_COLS: int := 16384
  const LETTERS: int := 26
  const MAX_POSITION_LENGTH: int := 17
  const MAX_POS_LETTER_COUNT: int := 3

  /** Zero-based row and column; `int` as in the source, so the NONE sentinel fits. */
  datatype Position = Position(row: int, col: int)

  const NONE: Position := Position(-1, -1)

  datatype Size = Size(rows: int, cols: int)

  /** Position::operator== */
  function Equals(a: Position, b: Position): (r: bool)
    ensures r <==> a == b
  {
    a.row == b.row && a.col == b.col
  }

  /** Position::operator<: std::tie comparison, row first, then column. */
  predicate Less(a: Position, b: Position)
  {
    a.row < b.row || (a.row == b.row && a.col < b.col)
  }

  /** Less is a strict total order, so it can key an ordered map. */
  lemma LessIsStrictTotalOrder(a: Position, b: Position, c: Position)
    ensures !Less(a, a)
    ensures Less(a, b) ==> !Less(b, a)
    ensures Less(a, b) && Less(b, c) ==> Less(a, c)
    ensures a != b ==> Less(a, b) || Less(b, a)
  {
  }

  predicate IsValid(p: Position)
  {
    p.col >= 0 && p.col < MAX_COLS && p.row >= 0 && p.row < MAX_ROWS
  }

  lemma NoneIsInvalid()
    ensures !IsValid(NONE)
  {
  }

  /** Size::operator== */
  function SizeEquals(a: Size, b: Size): (r: bool)
    ensures r <==> a == b
  {
    a.cols == b.cols && a.rows == b.rows
  }

  // ---------------------------------------------------------------------------
  // Characters, as the C locale classifies them

  predicate IsUpper(c: char) { 'A' <= c <= 'Z' }
  predicate IsLower(c: char) { 'a' <= c <= 'z' }
  predicate IsAlpha(c: char) { IsUpper(c) || IsLower(c) }
  predicate IsDigit(c: char) { '0' <= c <= '9' }

  predicate AllUpper(s: string) { forall i :: 0 <= i < |s| ==> IsUpper(s[i]) }
  predicate AllDigits(s: string) { forall i :: 0 <= i < |s| ==> IsDigit(s[i]) }

  function DigitChar(d: nat): char
    requires d < 10
  {
    ('0' as int + d) as char
  }

  function LetterChar(d: nat): char
    requires d < 26
  {
    ('A' as int + d) as char
  }

  // ---------------------------------------------------------------------------
  // Encoding

  /** Bijective base-26 numeral of n (1 = "A", 26 = "Z", 27 = "AA"); 0 has the empty numeral. */
  function ColumnLetters(n: nat): string
    decreases n
  {
    if n == 0 then "" else ColumnLetters((n - 1) / LETTERS) + [LetterChar((n - 1) % LETTERS)]
  }

  /** std::to_string of a non-negative number: its decimal digits, most significant first. */
  function Decimal(n: nat): string
    decreases n
  {
    if n < 10 then [DigitChar(n)] else Decimal(n / 10) + [DigitChar(n % 10)]
  }

  /** The text form of a position: "" for an invalid one. */
  function Encode(p: Position): string
  {
    if IsValid(p) then ColumnLetters(p.col + 1) + Decimal(p.row + 1) else ""
  }

  /** One round of the ToString loop: the last letter of the numeral moves to the text. */
  lemma PrependLetter(n: nat, str: string)
    requires n > 0
    ensures ColumnLetters((n - 1) / LETTERS) + ([LetterChar((n - 1) % LETTERS)] + str) == ColumnLetters(n) + str
  {
  }

  /** Position::ToString: letters prepended one by one while dividing the column count. */
  method ToString(p: Position) returns (s: string)
    ensures !IsValid(p) ==> s == ""
    ensures s == Encode(p)
  {
    if !IsValid(p) {
      return "";
    }
    var str := "";
    var colCount := p.col + 1;
    while colCount > 0
      invariant 0 <= colCount
      invariant ColumnLetters(colCount) + str == ColumnLetters(p.col + 1)
      decreases colCount
    {
      PrependLetter(colCount, str);
      colCount := colCount - 1;
      str := [LetterChar(colCount % LETTERS)] + str;
      colCount := colCount / LETTERS;
    }
    s := str + Decimal(p.row + 1);
  }

  // ---------------------------------------------------------------------------
  // Decoding

  /** Value of an upper-case letter string read as a bijective base-26 numeral, left to right. */
  function LettersValue(s: string): int
  {
    if |s| == 0 then 0
    else LettersValue(s[..|s| - 1]) * LETTERS + (s[|s| - 1] as int - 'A' as int + 1)
  }

  /** Value of a digit string read left to right (mathematical integers: no overflow). */
  function DigitsValue(s: string): int
  {
    if |s| == 0 then 0
    else DigitsValue(s[..|s| - 1]) * 10 + (s[|s| - 1] as int - '0' as int)
  }

  /** Length of the run of letters (either case) that starts the string. */
  function AlphaPrefix(s: string): (k: nat)
    ensures k <= |s|
    ensures forall j :: 0 <= j < k ==> IsAlpha(s[j])
    ensures k < |s| ==> !IsAlpha(s[k])
  {
    if |s| == 0 || !IsAlpha(s[0]) then 0 else 1 + AlphaPrefix(s[1..])
  }

  /** Reference meaning of Position::FromString, one rejection per early return. */
  function Decode(s: string): Position
  {
    if |s| == 0 || |s| > MAX_POSITION_LENGTH then NONE
    else DecodeLetters(s, AlphaPrefix(s))
  }

  /** Decoding once the leading run of k letters is known. */
  function DecodeLetters(s: string, k: nat): Position
    requires k <= |s|
  {
    if k > MAX_POS_LETTER_COUNT + 1 || !AllUpper(s[..k]) then NONE
    else if LettersValue(s[..k]) > MAX_COLS then NONE
    else DecodeRow(s[k..], LettersValue(s[..k]))
  }

  /** Decoding of the text after the letters, given the column number they encode. */
  function DecodeRow(t: string, col: int): Position
  {
    if |t| == 0 || !AllDigits(t) then NONE
    else if DigitsValue(t) < 1 || DigitsValue(t) > MAX_ROWS then NONE
    else Position(DigitsValue(t) - 1, col - 1)
  }

  lemma AlphaPrefixIs(s: string, i: nat)
    requires i <= |s|
    requires forall j :: 0 <= j < i ==> IsAlpha(s[j])
    requires i < |s| ==> !IsAlpha(s[i])
    ensures AlphaPrefix(s) == i
  {
  }

  /** The numeral read one letter further. */
  lemma LettersStep(s: string, i: nat)
    requires i < |s|
    ensures LettersValue(s[..i + 1]) == LettersValue(s[..i]) * LETTERS + (s[i] as int - 'A' as int + 1)
  {
    assert s[..i + 1][..i] == s[..i];
  }

  /** The number read one digit further. */
  lemma DigitsStep(s: string, k: nat, i: nat)
    requires k <= i < |s|
    ensures DigitsValue(s[k..i + 1]) == DigitsValue(s[k..i]) * 10 + (s[i] as int - '0' as int)
  {
    assert s[k..i + 1][..i - k] == s[k..i];
  }

  /** A fifth letter, or a lower-case one among the first four, makes the text no position. */
  lemma LettersRejected(s: string, i: nat)
    requires 0 < |s| <= MAX_POSITION_LENGTH && i < |s| && IsAlpha(s[i])
    requires forall j :: 0 <= j < i ==> IsAlpha(s[j]) && IsUpper(s[j])
    requires i > MAX_POS_LETTER_COUNT || !IsUpper(s[i])
    ensures Decode(s) == NONE
  {
    assert AlphaPrefix(s) > i by {
      if AlphaPrefix(s) <= i {
        AlphaPrefixIs(s, AlphaPrefix(s));
      }
    }
    assert !AllUpper(s[..AlphaPrefix(s)]) || AlphaPrefix(s) > MAX_POS_LETTER_COUNT + 1
      by { if i <= MAX_POS_LETTER_COUNT { assert s[..AlphaPrefix(s)][i] == s[i]; } }
  }

  /** A run of at most four upper-case letters leaves the decoding to the row part. */
  lemma LettersAccepted(s: string, i: nat)
    requires 0 < |s| <= MAX_POSITION_LENGTH && i <= |s| && i <= MAX_POS_LETTER_COUNT + 1
    requires forall j :: 0 <= j < i ==> IsAlpha(s[j]) && IsUpper(s[j])
    requires i < |s| ==> !IsAlpha(s[i])
    ensures Decode(s) == if LettersValue(s[..i]) > MAX_COLS then NONE
                         else DecodeRow(s[i..], LettersValue(s[..i]))
  {
    AlphaPrefixIs(s, i);
    assert AllUpper(s[..i]);
  }

  /** A character other than a digit after the letters makes the text no position. */
  lemma DigitRejected(s: string, k: nat, i: nat, col: int)
    requires k <= i < |s| && !IsDigit(s[i])
    ensures DecodeRow(s[k..], col) == NONE
  {
    assert s[k..][i - k] == s[i];
  }

  /** Digits up to the end: the row part is decided by their value. */
  lemma DigitsAccepted(s: string, k: nat, col: int)
    requires k < |s| && forall j :: k <= j < |s| ==> IsDigit(s[j])
    ensures DecodeRow(s[k..], col) == if DigitsValue(s[k..|s|]) < 1 || DigitsValue(s[k..|s|]) > MAX_ROWS then NONE
                                      else Position(DigitsValue(s[k..|s|]) - 1, col - 1)
  {
    assert s[k..|s|] == s[k..];
  }

  /** Position::FromString: letters, then digits, with the source's early returns. */
  method FromString(s: string) returns (r: Position)
    ensures r == Decode(s)
  {
    var strSize := |s|;
    if strSize == 0 || strSize > MAX_POSITION_LENGTH {
      return NONE;
    }
    var col := 0;
    var row := 0;
    var i := 0;
    while i < strSize && IsAlpha(s[i])
      invariant 0 <= i <= strSize
      invariant i <= MAX_POS_LETTER_COUNT + 1
      invariant forall j :: 0 <= j < i ==> IsAlpha(s[j]) && IsUpper(s[j])
      invariant col == LettersValue(s[..i])
    {
      if i > MAX_POS_LETTER_COUNT || !IsUpper(s[i]) {
        LettersRejected(s, i);
        return NONE;
      }
      LettersStep(s, i);
      col := col * LETTERS + (s[i] as int - 'A' as int + 1);
      i := i + 1;
    }
    LettersAccepted(s, i);
    if col > MAX_COLS {
      return NONE;
    }
    if i >= strSize {
      return NONE;
    }
    ghost var k := i;
    while i < strSize
      invariant k <= i <= strSize
      invariant forall j :: k <= j < i ==> IsDigit(s[j])
      invariant row == DigitsValue(s[k..i])
    {
      if !IsDigit(s[i]) {
        DigitRejected(s, k, i, col);
        return NONE;
      }
      DigitsStep(s, k, i);
      row := row * 10 + (s[i] as int - '0' as int);
      i := i + 1;
    }
    DigitsAccepted(s, k, col);
    if row < 1 || row > MAX_ROWS {
      return NONE;
    }
    return Position(row - 1, col - 1);
  }

  // ---------------------------------------------------------------------------
  // Properties of the codec

  lemma {:induction false} ColumnLettersDecode(n: nat)
    ensures AllUpper(ColumnLetters(n))
    ensures LettersValue(ColumnLetters(n)) == n
    ensures n >= 1 ==> |ColumnLetters(n)| >= 1
    ensures n <= 26 ==> |ColumnLetters(n)| <= 1
    ensures n <= 702 ==> |ColumnLetters(n)| <= 2
    ensures n <= 18278 ==> |ColumnLetters(n)| <= 3
    decreases n
  {
    ColumnLettersLength(n);
    if n > 0 {
      var q, r := (n - 1) / LETTERS, (n - 1) % LETTERS;
      assert n - 1 == q * LETTERS + r;
      ColumnLettersDecode(q);
      var s := ColumnLetters(n);
      assert s == ColumnLetters(q) + [LetterChar(r)];
      assert s[..|s| - 1] == ColumnLetters(q);
      assert LettersValue(s) == LettersValue(ColumnLetters(q)) * LETTERS + r + 1;
    }
  }

  /** How many letters a column number needs. */
  lemma {:induction false} ColumnLettersLength(n: nat)
    ensures n >= 1 ==> |ColumnLetters(n)| >= 1
    ensures n <= 26 ==> |ColumnLetters(n)| <= 1
    ensures n <= 702 ==> |ColumnLetters(n)| <= 2
    ensures n <= 18278 ==> |ColumnLetters(n)| <= 3
    decreases n
  {
    if n > 0 {
      var q := (n - 1) / LETTERS;
      ColumnLettersLength(q);
      assert |ColumnLetters(n)| == |ColumnLetters(q)| + 1;
      assert n <= 26 ==> q == 0;
      assert n <= 702 ==> q <= 26;
      assert n <= 18278 ==> q <= 702;
    }
  }

  lemma {:induction false} DecimalDecode(n: nat)
    ensures AllDigits(Decimal(n))
    ensures DigitsValue(Decimal(n)) == n
    ensures |Decimal(n)| >= 1
    ensures n < 10 ==> |Decimal(n)| == 1
    ensures n < 100 ==> |Decimal(n)| <= 2
    ensures n < 1000 ==> |Decimal(n)| <= 3
    ensures n < 10000 ==> |Decimal(n)| <= 4
    ensures n < 100000 ==> |Decimal(n)| <= 5
    decreases n
  {
    if n >= 10 {
      var q, r := n / 10, n % 10;
      assert n == q * 10 + r;
      DecimalDecode(q);
      var s := Decimal(n);
      assert s == Decimal(q) + [DigitChar(r)];
      assert s[..|s| - 1] == Decimal(q);
      assert DigitsValue(s) == DigitsValue(Decimal(q)) * 10 + r;
      assert n < 100 ==> q < 10;
      assert n < 1000 ==> q < 100;
      assert n < 10000 ==> q < 1000;
      assert n < 100000 ==> q < 10000;
    }
  }

  /** Round trip: decoding the text form of a valid position gives it back. */
  lemma DecodeEncode(p: Position)
    requires IsValid(p)
    ensures Decode(Encode(p)) == p
  {
    EncodedLetters(p);
    DecimalDecode(p.row + 1);
  }

  /** The letters of an encoded position decode to its column and leave the digits. */
  lemma EncodedLetters(p: Position)
    requires IsValid(p)
    ensures Decode(Encode(p)) == DecodeRow(Decimal(p.row + 1), p.col + 1)
  {
    var letters, digits := ColumnLetters(p.col + 1), Decimal(p.row + 1);
    ColumnLettersDecode(p.col + 1);
    DecimalDecode(p.row + 1);
    var s := letters + digits;
    assert s == Encode(p);
    assert |letters| <= 3 && |digits| <= 5;
    assert !IsAlpha(s[|letters|]) by { assert s[|letters|] == digits[0]; }
    assert forall j :: 0 <= j < |letters| ==> IsAlpha(s[j]) && IsUpper(s[j]) by {
      forall j | 0 <= j < |letters| ensures IsAlpha(s[j]) && IsUpper(s[j]) {
        assert s[j] == letters[j];
      }
    }
    LettersAccepted(s, |letters|);
    assert s[..|letters|] == letters;
    assert s[|letters|..] == digits;
  }

  /** A lower-case letter anywhere in the text makes it undecodable. */
  lemma LowercaseRejected(s: string, j: nat)
    requires j < |s| && IsLower(s[j])
    ensures Decode(s) == NONE
  {
    if 0 < |s| <= MAX_POSITION_LENGTH {
      var k := AlphaPrefix(s);
      if j < k {
        assert s[..k][j] == s[j];
      } else {
        assert s[k..][j - k] == s[j];
      }
    }
  }

  lemma {:induction false} LettersValueBounds(s: string)
    requires AllUpper(s)
    ensures LettersValue(s) >= 0
    ensures |s| > 0 ==> LettersValue(s) >= 1
    decreases |s|
  {
    if |s| > 0 {
      LettersValueBounds(s[..|s| - 1]);
    }
  }

  /** Text that holds a letter anywhere decodes to NONE or to a valid position: a letter
      after the leading run fails the digit test. */
  lemma LetteredDecodeIsValidOrNone(s: string, j: nat)
    requires j < |s| && IsAlpha(s[j])
    ensures Decode(s) == NONE || IsValid(Decode(s))
  {
    if 0 < |s| <= MAX_POSITION_LENGTH {
      var k := AlphaPrefix(s);
      if k <= MAX_POS_LETTER_COUNT + 1 && AllUpper(s[..k]) {
        if k > 0 {
          LettersValueBounds(s[..k]);
        } else {
          assert s[k..][j - k] == s[j];
        }
      }
    }
  }

  /** Digits alone decode to column -1 rather than NONE. */
  lemma DigitsOnlyDecode(s: string)
    requires 0 < |s| <= MAX_POSITION_LENGTH && AllDigits(s)
    requires 1 <= DigitsValue(s) <= MAX_ROWS
    ensures Decode(s) == Position(DigitsValue(s) - 1, -1)
    ensures !IsValid(Decode(s)) && Decode(s) != NONE
  {
    AlphaPrefixIs(s, 0);
    assert s[0..] == s;
  }

  /** Whatever the input, the result is NONE or has an in-range row and a column of at least -1. */
  lemma {:induction false} DecodeShape(s: string)
    ensures var r := Decode(s); r == NONE || (0 <= r.row < MAX_ROWS && -1 <= r.col < MAX_COLS)
  {
    if 0 < |s| <= MAX_POSITION_LENGTH {
      var k := AlphaPrefix(s);
      if k <= MAX_POS_LETTER_COUNT + 1 && AllUpper(s[..k]) {
        LettersValueBounds(s[..k]);
      }
    }
  }
}
