/** Formatting of the phone numbers typed into the application form's
    international phone widgets. A country dial code selects a mask; every
    placeholder `X` of the mask takes the next character of the number, left to
    right, and every other mask character is copied. When the number runs out,
    the remaining placeholders stay a literal `X`; characters beyond the last
    placeholder are dropped. An unknown dial code leaves the number unchanged. */
module PhoneFormat {

  /** The dial codes that have a predefined mask, and their masks. */
  const CountryFormats: map<string, string> :=
    map[
      "41" := "XX XXX XX XX",
      "49" := "XXXX XXXXXXX",
      "33" := "X XX XX XX XX",
      "385" := "XX XXX XXXX",
      "1" := "(XXX) XXX-XXXX"
    ]

  /** The mask character that a digit replaces. */
  const Placeholder: char := 'X'

  function Min(a: nat, b: nat): nat
  {
    if a <= b then a else b
  }

  /** Number of placeholders in `s`. */
  function XCount(s: string): (n: nat)
    ensures n <= |s|
  {
    if s == [] then 0 else (if s[0] == Placeholder then 1 else 0) + XCount(s[1..])
  }

  lemma {:induction false} XCountConcat(a: string, b: string)
    ensures XCount(a + b) == XCount(a) + XCount(b)
  {
    if a == [] {
      assert a + b == b;
    } else {
      assert (a + b)[1..] == a[1..] + b;
      XCountConcat(a[1..], b);
    }
  }

  /** `n` copies of `c`. */
  function Repeat(c: char, n: nat): (r: string)
    ensures |r| == n
    ensures forall i :: 0 <= i < n ==> r[i] == c
  {
    if n == 0 then [] else [c] + Repeat(c, n - 1)
  }

  /** Declarative description of a correctly filled mask: `out` has the mask's
      length, every literal mask character stays where it is, and the k-th
      placeholder (counting from 0, that is the number of placeholders before
      it) holds `digits[k]` while there is one and a literal `X` otherwise. */
  ghost predicate IsMaskFill(mask: string, digits: string, out: string)
  {
    && |out| == |mask|
    && (forall i :: 0 <= i < |mask| && mask[i] != Placeholder ==> out[i] == mask[i])
    && (forall i :: 0 <= i < |mask| && mask[i] == Placeholder && XCount(mask[..i]) < |digits| ==>
          out[i] == digits[XCount(mask[..i])])
    && (forall i :: 0 <= i < |mask| && mask[i] == Placeholder && XCount(mask[..i]) >= |digits| ==>
          out[i] == Placeholder)
  }

  /** Functional model of filling `mask` with `digits`, one mask character at a time. */
  function Masked(mask: string, digits: string): (r: string)
    ensures |r| == |mask|
  {
    if mask == [] then []
    else if mask[0] == Placeholder && digits != [] then [digits[0]] + Masked(mask[1..], digits[1..])
    else [mask[0]] + Masked(mask[1..], digits)
  }

  /** Functional model of the whole formatter. */
  function FormatPhone(countryCode: string, phoneNumber: string): string
  {
    if countryCode in CountryFormats then Masked(CountryFormats[countryCode], phoneNumber)
    else phoneNumber
  }

  /** Extending a prefix by one character adds one placeholder exactly when
      that character is a placeholder. */
  lemma XCountStep(s: string, i: nat)
    requires i < |s|
    ensures XCount(s[..i + 1]) == XCount(s[..i]) + (if s[i] == Placeholder then 1 else 0)
  {
    assert s[..i + 1] == s[..i] + [s[i]];
    XCountConcat(s[..i], [s[i]]);
    assert XCount([s[i]]) == if s[i] == Placeholder then 1 else 0;
  }

  /** The placeholder count of a mask whose first character is removed. */
  lemma XCountTail(mask: string, i: nat)
    requires 0 < i <= |mask|
    ensures XCount(mask[..i]) == (if mask[0] == Placeholder then 1 else 0) + XCount(mask[1..][..i - 1])
  {
    assert mask[..i][1..] == mask[1..][..i - 1];
  }

  /** Two outputs that both fill the mask correctly are equal. */
  lemma MaskFillUnique(mask: string, digits: string, a: string, b: string)
    requires IsMaskFill(mask, digits, a) && IsMaskFill(mask, digits, b)
    ensures a == b
  {
  }

  /** The functional model meets the declarative description. */
  lemma {:induction false} MaskedIsMaskFill(mask: string, digits: string)
    ensures IsMaskFill(mask, digits, Masked(mask, digits))
  {
    if mask != [] {
      var out := Masked(mask, digits);
      var used := mask[0] == Placeholder && digits != [];
      var rest := if used then digits[1..] else digits;
      MaskedIsMaskFill(mask[1..], rest);
      assert out[1..] == Masked(mask[1..], rest);
      forall i | 0 <= i < |mask|
        ensures mask[i] != Placeholder ==> out[i] == mask[i]
        ensures mask[i] == Placeholder && XCount(mask[..i]) < |digits| ==> out[i] == digits[XCount(mask[..i])]
        ensures mask[i] == Placeholder && XCount(mask[..i]) >= |digits| ==> out[i] == Placeholder
      {
        if i == 0 {
          assert mask[..0] == [];
        } else {
          XCountTail(mask, i);
          assert mask[1..][i - 1] == mask[i];
          assert out[i] == out[1..][i - 1];
        }
      }
    }
  }

  /** The characters `out` holds at the placeholder positions of `mask`, in order. */
  function SlotContents(mask: string, out: string): (r: string)
    requires |out| == |mask|
    ensures |r| == XCount(mask)
  {
    if mask == [] then []
    else (if mask[0] == Placeholder then [out[0]] else []) + SlotContents(mask[1..], out[1..])
  }

  /** Digits fill the placeholders in order, none skipped and none repeated; the
      placeholders left over once the digits run out keep a literal `X`. */
  lemma {:induction false} SlotsTakeDigitsInOrder(mask: string, digits: string)
    ensures var m := Min(|digits|, XCount(mask));
      SlotContents(mask, Masked(mask, digits)) == digits[..m] + Repeat(Placeholder, XCount(mask) - m)
  {
    if mask != [] {
      var out, tail := Masked(mask, digits), mask[1..];
      var m, n := Min(|digits|, XCount(mask)), XCount(mask) - Min(|digits|, XCount(mask));
      if mask[0] == Placeholder && digits != [] {
        var rest := digits[1..];
        SlotsTakeDigitsInOrder(tail, rest);
        assert out == [digits[0]] + Masked(tail, rest);
        assert SlotContents(mask, out) == [digits[0]] + SlotContents(tail, Masked(tail, rest));
        assert m - 1 == Min(|rest|, XCount(tail)) && n == XCount(tail) - (m - 1);
        assert digits[..m] == [digits[0]] + rest[..m - 1];
      } else if mask[0] == Placeholder {
        SlotsTakeDigitsInOrder(tail, digits);
        assert out == [Placeholder] + Masked(tail, digits);
        assert SlotContents(mask, out) == [Placeholder] + SlotContents(tail, Masked(tail, digits));
        assert Repeat(Placeholder, n) == [Placeholder] + Repeat(Placeholder, n - 1);
      } else {
        SlotsTakeDigitsInOrder(tail, digits);
        assert out == [mask[0]] + Masked(tail, digits);
        assert SlotContents(mask, out) == SlotContents(tail, Masked(tail, digits));
      }
    }
  }

  /** Characters beyond the number of placeholders do not affect the result. */
  lemma {:induction false} ExtraDigitsDropped(mask: string, digits: string)
    ensures Masked(mask, digits) == Masked(mask, digits[..Min(|digits|, XCount(mask))])
  {
    if mask != [] {
      var m := Min(|digits|, XCount(mask));
      if mask[0] == Placeholder && digits != [] {
        ExtraDigitsDropped(mask[1..], digits[1..]);
        assert digits[..m][1..] == digits[1..][..m - 1];
      } else if mask[0] == Placeholder {
        assert digits[..m] == digits;
      } else {
        ExtraDigitsDropped(mask[1..], digits);
      }
    }
  }

  /** The loop of the formatter: walks the mask once, appending either the next
      digit (at a placeholder, while digits remain) or the mask character.
      `consumed` is the digit counter at loop exit. */
  method ApplyMask(mask: string, digits: string) returns (formatted: string, consumed: nat)
    ensures IsMaskFill(mask, digits, formatted)
    ensures formatted == Masked(mask, digits)
    ensures consumed == Min(|digits|, XCount(mask))
  {
    formatted := "";
    consumed := 0;
    for i := 0 to |mask|
      invariant |formatted| == i
      invariant consumed == Min(|digits|, XCount(mask[..i]))
      invariant forall j :: 0 <= j < i && mask[j] != Placeholder ==> formatted[j] == mask[j]
      invariant forall j :: 0 <= j < i && mask[j] == Placeholder && XCount(mask[..j]) < |digits| ==>
                  formatted[j] == digits[XCount(mask[..j])]
      invariant forall j :: 0 <= j < i && mask[j] == Placeholder && XCount(mask[..j]) >= |digits| ==>
                  formatted[j] == Placeholder
    {
      XCountStep(mask, i);
      if mask[i] == Placeholder && consumed < |digits| {
        formatted := formatted + [digits[consumed]];
        consumed := consumed + 1;
      } else {
        formatted := formatted + [mask[i]];
      }
    }
    assert mask[..|mask|] == mask;
    MaskedIsMaskFill(mask, digits);
    MaskFillUnique(mask, digits, formatted, Masked(mask, digits));
  }

  /** Formats `phoneNumber` with the mask of `countryCode`; a code without a
      mask returns the number as it was given. */
  method FormatPhoneNumber(countryCode: string, phoneNumber: string) returns (formatted: string)
    ensures countryCode !in {"41", "49", "33", "385", "1"} ==> formatted == phoneNumber
    ensures countryCode in CountryFormats ==> IsMaskFill(CountryFormats[countryCode], phoneNumber, formatted)
    ensures formatted == FormatPhone(countryCode, phoneNumber)
  {
    if countryCode !in CountryFormats {
      return phoneNumber;
    }
    var formatMask := CountryFormats[countryCode];
    var numIndex;
    formatted, numIndex := ApplyMask(formatMask, phoneNumber);
  }

  /** A mask that starts with `n` placeholders and then a literal character
      takes `n` digits, copies the literal, and continues with the rest. */
  lemma {:induction false} MaskedGroupStep(mask: string, digits: string, n: nat)
    requires n < |mask| && n <= |digits|
    requires forall i :: 0 <= i < n ==> mask[i] == Placeholder
    requires mask[n] != Placeholder
    ensures Masked(mask, digits) == digits[..n] + [mask[n]] + Masked(mask[n + 1..], digits[n..])
  {
    if n == 0 {
      assert digits[..0] == [];
    } else {
      MaskedGroupStep(mask[1..], digits[1..], n - 1);
      assert mask[1..][n - 1 + 1..] == mask[n + 1..];
      assert digits[1..][n - 1..] == digits[n..];
      assert digits[..n] == [digits[0]] + digits[1..][..n - 1];
    }
  }

  /** A mask of `n` placeholders only, with exactly `n` digits, takes the digits verbatim. */
  lemma {:induction false} MaskedAllPlaceholders(mask: string, digits: string)
    requires |mask| == |digits|
    requires forall i :: 0 <= i < |mask| ==> mask[i] == Placeholder
    ensures Masked(mask, digits) == digits
  {
    if mask != [] {
      MaskedAllPlaceholders(mask[1..], digits[1..]);
    }
  }

  /** The German number used by the personal-information step. */
  lemma GermanExample(countryCode: string, phoneNumber: string)
    requires countryCode == "49" && phoneNumber == "15234567890"
    ensures FormatPhone(countryCode, phoneNumber) == "1523 4567890"
  {
    GermanMask(CountryFormats[countryCode], phoneNumber);
  }

  /** The German mask: a four-digit area code group, then the subscriber group. */
  lemma GermanMask(mask: string, digits: string)
    requires mask == "XXXX XXXXXXX" && digits == "15234567890"
    ensures Masked(mask, digits) == "1523 4567890"
  {
    assert mask[0] == Placeholder && mask[1] == Placeholder && mask[2] == Placeholder && mask[3] == Placeholder;
    assert mask[4] == ' ';
    MaskedGroupStep(mask, digits, 4);
    GermanSubscriberGroup(mask[5..], digits[4..]);
  }

  /** The seven-digit group after the German area code. */
  lemma GermanSubscriberGroup(mask: string, digits: string)
    requires mask == "XXXXXXX" && digits == "4567890"
    ensures Masked(mask, digits) == "4567890"
  {
    MaskedAllPlaceholders(mask, digits);
  }

  /** The last two groups of the Swiss mask. */
  lemma SwissLastGroups(mask: string, digits: string)
    requires mask == "XX XX" && digits == "4567"
    ensures Masked(mask, digits) == "45 67"
  {
    MaskedGroupStep(mask, digits, 2);
    MaskedAllPlaceholders(mask[3..], digits[2..]);
  }

  /** The Swiss mask without its first group. */
  lemma SwissLastThreeGroups(mask: string, digits: string)
    requires mask == "XXX XX XX" && digits == "1234567"
    ensures Masked(mask, digits) == "123 45 67"
  {
    MaskedGroupStep(mask, digits, 3);
    SwissLastGroups(mask[4..], digits[3..]);
  }

  /** The Swiss mask with a nine-digit mobile number. */
  lemma SwissExample(countryCode: string, phoneNumber: string)
    requires countryCode == "41" && phoneNumber == "791234567"
    ensures FormatPhone(countryCode, phoneNumber) == "79 123 45 67"
  {
    var mask := CountryFormats[countryCode];
    MaskedGroupStep(mask, phoneNumber, 2);
    SwissLastThreeGroups(mask[3..], phoneNumber[2..]);
  }
}
