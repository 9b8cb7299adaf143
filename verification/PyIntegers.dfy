// Which names of children are integers to Python's int(), and how the printer writes a name.
module PyIntegers {
  import opened Wrappers
  import opened Numerals

  /** The rest of a numeral: digits, with single underscores between them. */
  function ReadNumeral(s: string, acc: nat): Option<nat> {
    if s == [] then Some(acc)
    else if IsDigit(s[0]) then ReadNumeral(s[1..], acc * 10 + DigitValue(s[0]))
    else if s[0] == '_' && |s| >= 2 && IsDigit(s[1]) then ReadNumeral(s[1..], acc)
    else None
  }

  /** Reads a child's name as an integer; None is the ValueError. */
  function PyInt(name: string): Option<int> {
    if name != [] && IsDigit(name[0]) then Whole(ReadNumeral(name, 0), 1)
    else if |name| >= 2 && name[0] == '-' && IsDigit(name[1]) then Whole(ReadNumeral(name[1..], 0), -1)
    else if |name| >= 2 && name[0] == '+' && IsDigit(name[1]) then Whole(ReadNumeral(name[1..], 0), 1)
    else None
  }

  function Whole(n: Option<nat>, sign: int): Option<int> {
    match n
    case None => None
    case Some(v) => Some(sign * v)
  }

  /** The name under which the printer shows a child. */
  function ShownName(name: string): string {
    match PyInt(name)
    case None => name
    case Some(i) => Text(i)
  }

  // ---------- which names are numerals ----------

  /** Digits, and underscores that have a digit on either side. */
  predicate IsUnsigned(s: string) {
    && s != []
    && forall i | 0 <= i < |s| ::
         IsDigit(s[i]) || (s[i] == '_' && 0 < i < |s| - 1 && IsDigit(s[i - 1]) && IsDigit(s[i + 1]))
  }

  function WithoutSign(name: string): string {
    if name != [] && name[0] in {'+', '-'} then name[1..] else name
  }

  predicate IsNumeral(name: string) {
    IsUnsigned(WithoutSign(name))
  }

  function DigitCount(s: string): nat {
    if s == [] then 0 else DigitCount(s[1..]) + if IsDigit(s[0]) then 1 else 0
  }

  function Pow10(n: nat): (p: nat)
    ensures p > 0
  {
    if n == 0 then 1 else 10 * Pow10(n - 1)
  }

  /** The place-value sum: each digit times the power of ten that belongs to the number of digits behind it. */
  function PlaceValue(s: string): nat {
    if s == [] then 0
    else PlaceValue(s[1..]) + if IsDigit(s[0]) then DigitValue(s[0]) * Pow10(DigitCount(s[1..])) else 0
  }

  function NumeralValue(name: string): int {
    var v: int := PlaceValue(WithoutSign(name));
    if name != [] && name[0] == '-' then -v else v
  }

  /** Every underscore is followed by a digit. */
  predicate IsTail(s: string) {
    forall i | 0 <= i < |s| :: IsDigit(s[i]) || (s[i] == '_' && i + 1 < |s| && IsDigit(s[i + 1]))
  }

  lemma TailStep(s: string)
    requires s != []
    ensures IsTail(s) <==>
              IsTail(s[1..]) && (IsDigit(s[0]) || (s[0] == '_' && |s| >= 2 && IsDigit(s[1])))
  {
    var rest := s[1..];
    assert forall i | 0 <= i < |rest| :: rest[i] == s[i + 1];
    if IsTail(rest) && (IsDigit(s[0]) || (s[0] == '_' && |s| >= 2 && IsDigit(s[1]))) {
      forall i | 0 <= i < |s| ensures IsDigit(s[i]) || (s[i] == '_' && i + 1 < |s| && IsDigit(s[i + 1])) {
        assert i == 0 || rest[i - 1] == s[i];
      }
    }
    if IsTail(s) {
      forall i | 0 <= i < |rest|
        ensures IsDigit(rest[i]) || (rest[i] == '_' && i + 1 < |rest| && IsDigit(rest[i + 1]))
      {
        assert rest[i] == s[i + 1];
      }
    }
  }

  lemma {:induction false} ReadNumeralExact(s: string, acc: nat)
    ensures ReadNumeral(s, acc).Some? <==> IsTail(s)
    ensures IsTail(s) ==> ReadNumeral(s, acc) == Some(acc * Pow10(DigitCount(s)) + PlaceValue(s))
  {
    hide IsTail;
    if s == [] {
      EmptyIsTail();
    } else {
      TailStep(s);
      if IsDigit(s[0]) {
        ReadNumeralExact(s[1..], acc * 10 + DigitValue(s[0]));
        assert (acc * 10 + DigitValue(s[0])) * Pow10(DigitCount(s[1..]))
            == acc * (10 * Pow10(DigitCount(s[1..]))) + DigitValue(s[0]) * Pow10(DigitCount(s[1..]));
      } else {
        ReadNumeralExact(s[1..], acc);
      }
    }
  }

  lemma EmptyIsTail()
    ensures IsTail("")
  {
  }

  lemma UnsignedIsTail(s: string)
    ensures IsUnsigned(s) <==> s != [] && IsDigit(s[0]) && IsTail(s)
  {
    if s != [] && IsDigit(s[0]) && IsTail(s) {
      forall i | 0 <= i < |s|
        ensures IsDigit(s[i]) || (s[i] == '_' && 0 < i < |s| - 1 && IsDigit(s[i - 1]) && IsDigit(s[i + 1]))
      {
        assert i == 0 || IsDigit(s[i - 1]) || s[i - 1] == '_';
      }
    }
  }

  /**
   A name is an integer if and only if it is digits with single underscores between digits, behind at most one sign;
   its value is the sum of the place values.
   */
  lemma PyIntExact(name: string)
    ensures PyInt(name).Some? <==> IsNumeral(name)
    ensures IsNumeral(name) ==> PyInt(name) == Some(NumeralValue(name))
  {
    var s := WithoutSign(name);
    ReadNumeralExact(s, 0);
    UnsignedIsTail(s);
    hide IsTail, ReadNumeral, IsUnsigned, PlaceValue;
  }

  /** Every other name is shown as it is. */
  lemma OtherNamesKept(name: string)
    requires !IsNumeral(name)
    ensures ShownName(name) == name
  {
    PyIntExact(name);
  }

  // ---------- the printer's own numerals ----------

  predicate AllDigits(s: string) {
    s != [] && forall i | 0 <= i < |s| :: IsDigit(s[i])
  }

  /** As the printer writes an integer: no plus sign, no underscore, no leading zero, no negative zero. */
  predicate IsPlain(name: string) {
    if name != [] && name[0] == '-' then AllDigits(name[1..]) && name[1] != '0'
    else AllDigits(name) && (name[0] == '0' ==> |name| == 1)
  }

  lemma Regroup(d: nat, p: nat)
    ensures d * (10 * p) == (d * p) * 10
  {
  }

  lemma {:induction false} DigitsSnoc(s: string, c: char)
    requires IsDigit(c)
    ensures DigitCount(s + [c]) == DigitCount(s) + 1
    ensures PlaceValue(s + [c]) == PlaceValue(s) * 10 + DigitValue(c)
  {
    if s == [] {
      assert [c][1..] == [] && DigitCount([]) == 0 && Pow10(0) == 1 && PlaceValue([]) == 0;
      assert s + [c] == [c];
    } else {
      var rest := s[1..];
      DigitsSnoc(rest, c);
      assert (s + [c])[1..] == rest + [c];
      hide IsDigit;
      if IsDigit(s[0]) {
        Regroup(DigitValue(s[0]), Pow10(DigitCount(rest)));
      }
    }
  }

  /** The text of a number is digits without a leading zero whose place values add up to the number. */
  lemma {:induction false} DigitsExact(n: nat)
    ensures AllDigits(Digits(n)) && (Digits(n)[0] == '0' ==> n == 0) && PlaceValue(Digits(n)) == n
    ensures n == 0 ==> Digits(n) == "0"
  {
    if n < 10 {
      DigitsSnoc("", Digit(n));
      assert "" + [Digit(n)] == [Digit(n)];
    } else {
      DigitsExact(n / 10);
      DigitsSnoc(Digits(n / 10), Digit(n % 10));
    }
  }

  /** There is no other such text. */
  lemma {:induction false} DigitsUnique(s: string)
    requires AllDigits(s) && (s[0] == '0' ==> |s| == 1)
    ensures Digits(PlaceValue(s)) == s && (PlaceValue(s) == 0 ==> s == "0")
  {
    var front, c := s[..|s| - 1], s[|s| - 1];
    assert s == front + [c];
    DigitsSnoc(front, c);
    if front == [] {
      assert PlaceValue("") == 0;
      assert s == [c];
    } else {
      DigitsUnique(front);
      assert front[0] == s[0];
      assert PlaceValue(front) != 0;
      assert PlaceValue(s) / 10 == PlaceValue(front) && PlaceValue(s) % 10 == DigitValue(c);
    }
  }

  lemma DigitsUnsigned(s: string)
    requires AllDigits(s)
    ensures IsUnsigned(s)
  {
  }

  /** A name is shown as it is if and only if it is no numeral at all or one written in the printer's way. */
  lemma ShownAsItIs(name: string)
    ensures ShownName(name) == name <==> !IsNumeral(name) || IsPlain(name)
  {
    PyIntExact(name);
    hide PyInt, IsUnsigned, PlaceValue, Digits;
    var i := NumeralValue(name);
    if IsPlain(name) {
      var s := WithoutSign(name);
      DigitsUnsigned(s);
      DigitsUnique(s);
      DigitsExact(0);
    } else if IsNumeral(name) {
      TextIsPlain(i);
    }
  }

  lemma TextIsPlain(i: int)
    ensures IsPlain(Text(i))
  {
    var n := if i < 0 then -i else i;
    DigitsExact(n);
    if i == 0 {
      assert Text(i) == "0";
    } else {
      hide Digits;
      assert Digits(n)[0] != '0';
      if i < 0 {
        assert Text(i)[1..] == Digits(n) && Text(i)[1] == Digits(n)[0];
      }
    }
  }

  lemma PyIntOfText(i: int)
    ensures PyInt(Text(i)) == Some(i)
  {
    var n := if i < 0 then -i else i;
    DigitsExact(n);
    hide Digits;
    DigitsUnsigned(Digits(n));
    PyIntExact(Text(i));
    if i < 0 {
      assert Text(i)[1..] == Digits(n);
    } else {
      assert Text(i)[0] == Digits(n)[0];
    }
  }

  lemma ShownNameIsShown(name: string)
    ensures ShownName(ShownName(name)) == ShownName(name)
  {
    if PyInt(name).Some? {
      PyIntOfText(PyInt(name).value);
    }
  }
}
