/** Shared vocabulary of the converter model: an Option type, the bounds of the
    unsigned integer widths the converter uses, and the decimal text of an
    unsigned integer as Rust's `to_string`/`{}` produce it and as
    `str::parse::<u64>` reads it back. */
module Prelude {

  datatype Option<+T> = None | Some(value: T)

  const U32_MAX: nat := 0xFFFF_FFFF
  const U64_MAX: nat := 0xFFFF_FFFF_FFFF_FFFF

  /** `xs` names each element of `s` exactly once. */
  ghost predicate Enumerates<T(!new)>(xs: seq<T>, s: set<T>) {
    && (forall x :: x in xs <==> x in s)
    && (forall i, j :: 0 <= i < j < |xs| ==> xs[i] != xs[j])
  }

  /** The elements of `s` in the order a hash map or hash set yields them:
      an order the model cannot know, so any order. */
  method Enumerate<T(==, !new)>(s: set<T>) returns (xs: seq<T>)
    ensures Enumerates(xs, s)
  {
    var todo := s;
    xs := [];
    while todo != {}
      invariant forall x :: x in xs || x in todo <==> x in s
      invariant forall x :: x in xs ==> x !in todo
      invariant forall i, j :: 0 <= i < j < |xs| ==> xs[i] != xs[j]
      decreases |todo|
    {
      var x :| x in todo;
      xs := xs + [x];
      todo := todo - {x};
    }
  }

  predicate IsDigit(c: char) {
    '0' <= c <= '9'
  }

  predicate AllDigits(s: string) {
    forall i :: 0 <= i < |s| ==> IsDigit(s[i])
  }

  function DigitChar(d: nat): (c: char)
    requires d < 10
    ensures IsDigit(c) && c as int - '0' as int == d
  {
    (d + '0' as int) as char
  }

  /** Decimal text of `n` without sign or leading zeros (Rust's `Display` of an unsigned integer). */
  function Decimal(n: nat): (s: string)
    ensures |s| > 0 && AllDigits(s)
    ensures s[0] == '0' ==> n == 0
  {
    if n < 10 then [DigitChar(n)] else Decimal(n / 10) + [DigitChar(n % 10)]
  }

  /** The number a non-empty run of decimal digits denotes. */
  function DigitsValue(s: string): nat
    requires AllDigits(s)
  {
    if s == [] then 0
    else DigitsValue(s[..|s| - 1]) * 10 + (s[|s| - 1] as int - '0' as int)
  }

  /** The text `str::parse::<u64>` reads as digits: all of it, or what
      follows a leading `+`. */
  function UnsignedDigits(s: string): (d: string)
    ensures |s| > 0 && s[0] == '+' ==> s == ['+'] + d
    ensures |s| == 0 || s[0] != '+' ==> d == s
  {
    if s != [] && s[0] == '+' then s[1..] else s
  }

  /** `str::parse::<u64>`: an optional leading `+`, then at least one decimal
      digit and nothing else, denoting a value that fits in 64 bits. */
  function ParseU64(s: string): (r: Option<nat>)
    ensures r.Some? <==> var d := UnsignedDigits(s);
                         d != [] && AllDigits(d) && DigitsValue(d) <= U64_MAX
    ensures r.Some? ==> r.value == DigitsValue(UnsignedDigits(s)) && r.value <= U64_MAX
  {
    var digits := UnsignedDigits(s);
    if digits == [] || !AllDigits(digits) then None
    else if DigitsValue(digits) <= U64_MAX then Some(DigitsValue(digits))
    else None
  }

  lemma {:induction false} DecimalValue(n: nat)
    ensures DigitsValue(Decimal(n)) == n
  {
    if n >= 10 {
      DecimalValue(n / 10);
      var s := Decimal(n);
      assert s[..|s| - 1] == Decimal(n / 10);
    }
  }

  /** Printing an unsigned integer and parsing the text back is the identity. */
  lemma DecimalRoundTrip(n: nat)
    requires n <= U64_MAX
    ensures ParseU64(Decimal(n)) == Some(n)
  {
    DecimalValue(n);
  }

  /** A leading `+` is accepted, so a number has more than one accepted spelling. */
  lemma PlusSignAccepted(n: nat)
    requires n <= U64_MAX
    ensures ParseU64(['+'] + Decimal(n)) == Some(n)
  {
    DecimalValue(n);
    assert (['+'] + Decimal(n))[1..] == Decimal(n);
  }

  /** Text with any character other than a digit after the optional `+`
      (a space, a `-` sign, a letter) is rejected, and so are the empty text
      and a lone `+`. */
  lemma NonDigitRejected(s: string, i: nat)
    requires i < |s| && !IsDigit(s[i]) && (i == 0 ==> s[0] != '+')
    ensures ParseU64(s) == None
  {
    var d := UnsignedDigits(s);
    if |s| > 0 && s[0] == '+' {
      assert d[i - 1] == s[i];
    } else {
      assert d[i] == s[i];
    }
  }

  lemma EmptyRejected()
    ensures ParseU64("") == None
    ensures ParseU64("+") == None
  {
    assert UnsignedDigits("+") == [];
  }

  /** A number above the `u64` range is rejected even though it is all digits. */
  lemma OverflowRejected(n: nat)
    requires n > U64_MAX
    ensures ParseU64(Decimal(n)) == None
  {
    DecimalValue(n);
  }

  /** A leading zero does not change a digit run's value. */
  lemma {:induction false} LeadingZeroValue(d: string)
    requires AllDigits(d)
    ensures AllDigits("0" + d) && DigitsValue("0" + d) == DigitsValue(d)
    decreases |d|
  {
    var z := "0" + d;
    assert AllDigits(z) by {
      assert forall i :: 0 < i < |z| ==> z[i] == d[i - 1];
    }
    if d != [] {
      var init := d[..|d| - 1];
      assert z[..|z| - 1] == "0" + init;
      LeadingZeroValue(init);
    }
  }

  /** Leading zeros are accepted: `0` followed by a number's text reads as
      that number, so "007" gives 7. */
  lemma LeadingZerosAccepted(n: nat)
    requires n <= U64_MAX
    ensures ParseU64("0" + Decimal(n)) == Some(n)
    ensures ParseU64("007") == Some(7)
  {
    DecimalValue(n);
    LeadingZeroValue(Decimal(n));
    assert Decimal(7) == "7";
    DecimalValue(7);
    LeadingZeroValue("7");
    assert "0" + "7" == "07";
    LeadingZeroValue("07");
    assert "0" + "07" == "007";
    assert UnsignedDigits("007") == "007";
    assert DigitsValue("007") == 7;
  }

  /** Regrouping a concatenation of three sequences. */
  lemma ConcatAssoc<T>(a: seq<T>, b: seq<T>, c: seq<T>)
    ensures (a + b) + c == a + (b + c)
  {
  }
}
