/** The decision a dropdown makes once its option list is open: take the first
    option whose trimmed, lower-cased text contains the lower-cased target;
    if none does, fall back (with a warning) to the first option; if the list
    is empty, fail. */
module OptionChoice {

  datatype Option<T> = None | Some(value: T)

  /** What the dropdown ends up doing. `Clicked(i, true)` clicks option `i`
      because it matched; `Clicked(0, false)` is the fallback that clicks the
      first option after warning; `NoOptions` is the error raised when the
      open dropdown lists nothing. */
  datatype Choice = Clicked(index: nat, matched: bool) | NoOptions

  /** Whitespace as removed by a default string strip: the ASCII controls
      TAB..CR, the separators FS..US, SPACE, NEL, NO-BREAK SPACE and the
      Unicode space separators. */
  predicate IsSpace(c: char)
  {
    || '\t' <= c <= '\r'
    || '\U{1C}' <= c <= ' '
    || c == '\U{85}' || c == '\U{A0}' || c == '\U{1680}'
    || '\U{2000}' <= c <= '\U{200A}'
    || c == '\U{2028}' || c == '\U{2029}' || c == '\U{202F}' || c == '\U{205F}' || c == '\U{3000}'
  }

  /** `s` without its leading whitespace. */
  function StripLeading(s: string): string
  {
    if s != [] && IsSpace(s[0]) then StripLeading(s[1..]) else s
  }

  /** `s` without its trailing whitespace. */
  function StripTrailing(s: string): string
  {
    if s != [] && IsSpace(s[|s| - 1]) then StripTrailing(s[..|s| - 1]) else s
  }

  /** `s` without whitespace at either end. */
  function Strip(s: string): string
  {
    StripTrailing(StripLeading(s))
  }

  /** Stripping the front removes exactly the maximal run of leading whitespace. */
  lemma {:induction false} StripLeadingIsSuffix(s: string)
    ensures var r := StripLeading(s);
      && |r| <= |s| && r == s[|s| - |r|..]
      && (forall k :: 0 <= k < |s| - |r| ==> IsSpace(s[k]))
      && (r != [] ==> !IsSpace(r[0]))
  {
    if s != [] && IsSpace(s[0]) {
      var r := StripLeading(s[1..]);
      StripLeadingIsSuffix(s[1..]);
      assert StripLeading(s) == r;
      assert s[1..][|s| - 1 - |r|..] == s[|s| - |r|..];
      forall k | 0 < k < |s| - |r| ensures IsSpace(s[k]) {
        assert s[k] == s[1..][k - 1];
      }
    }
  }

  /** Stripping the back removes exactly the maximal run of trailing whitespace. */
  lemma {:induction false} StripTrailingIsPrefix(s: string)
    ensures var r := StripTrailing(s);
      && |r| <= |s| && r == s[..|r|]
      && (forall k :: |r| <= k < |s| ==> IsSpace(s[k]))
      && (r != [] ==> !IsSpace(r[|r| - 1]))
  {
    if s != [] && IsSpace(s[|s| - 1]) {
      var r := StripTrailing(s[..|s| - 1]);
      StripTrailingIsPrefix(s[..|s| - 1]);
      assert StripTrailing(s) == r;
      assert s[..|s| - 1][..|r|] == s[..|r|];
      forall k | |r| <= k < |s| - 1 ensures IsSpace(s[k]) {
        assert s[k] == s[..|s| - 1][k];
      }
    }
  }

  /** Stripped text is the slice of the original between its leading and its
      trailing whitespace, and neither end of it is whitespace. */
  lemma StripIsTrimmedSlice(s: string)
    ensures |Strip(s)| <= |StripLeading(s)| <= |s|
    ensures var r, lead := Strip(s), |s| - |StripLeading(s)|;
      && r == s[lead..lead + |r|]
      && (forall k :: 0 <= k < lead ==> IsSpace(s[k]))
      && (forall k :: lead + |r| <= k < |s| ==> IsSpace(s[k]))
      && (r != [] ==> !IsSpace(r[0]) && !IsSpace(r[|r| - 1]))
  {
    var t := StripLeading(s);
    StripLeadingIsSuffix(s);
    StripTrailingIsPrefix(t);
    var r, lead := Strip(s), |s| - |t|;
    assert r == t[..|r|];
    assert s[lead..lead + |r|] == t[..|r|];
    forall k | lead + |r| <= k < |s| ensures IsSpace(s[k]) {
      assert s[k] == t[k - lead];
    }
  }

  /** ASCII lower-casing of one character: no ASCII capital survives, a capital
      becomes the small letter at the same position in the alphabet, and
      exactly the characters that are not capitals are kept. */
  function LowerChar(c: char): (r: char)
    ensures !('A' <= r <= 'Z')
    ensures 'A' <= c <= 'Z' ==> 'a' <= r <= 'z' && r as int - 'a' as int == c as int - 'A' as int
    ensures r == c <==> !('A' <= c <= 'Z')
  {
    if 'A' <= c <= 'Z' then (c as int + 32) as char else c
  }

  /** ASCII lower-casing of a string. */
  function Lower(s: string): (r: string)
    ensures |r| == |s|
    ensures forall i :: 0 <= i < |s| ==> r[i] == LowerChar(s[i])
  {
    if s == [] then [] else [LowerChar(s[0])] + Lower(s[1..])
  }

  /** `needle` occurs in `hay` starting at index `i`. */
  ghost predicate OccursAt(hay: string, needle: string, i: int)
  {
    0 <= i && i + |needle| <= |hay| && hay[i..i + |needle|] == needle
  }

  /** Substring test, by trying each start position in turn. */
  function Contains(hay: string, needle: string): bool
  {
    needle <= hay || (hay != [] && Contains(hay[1..], needle))
  }

  /** A successful substring test has a position where the needle occurs. */
  lemma {:induction false} ContainsHasOccurrence(hay: string, needle: string) returns (i: nat)
    requires Contains(hay, needle)
    ensures OccursAt(hay, needle, i)
  {
    if needle <= hay {
      i := 0;
    } else {
      var j := ContainsHasOccurrence(hay[1..], needle);
      assert hay[j + 1..j + 1 + |needle|] == hay[1..][j..j + |needle|];
      i := j + 1;
    }
  }

  /** An occurrence of the needle at any position makes the substring test succeed. */
  lemma {:induction false} OccurrenceIsContained(hay: string, needle: string, i: nat)
    requires OccursAt(hay, needle, i)
    ensures Contains(hay, needle)
  {
    if i == 0 {
      assert needle <= hay;
    } else {
      assert hay[1..][i - 1..i - 1 + |needle|] == hay[i..i + |needle|];
      OccurrenceIsContained(hay[1..], needle, i - 1);
    }
  }

  /** The substring test holds exactly when the needle occurs at some index. */
  lemma ContainsIffOccurs(hay: string, needle: string)
    ensures Contains(hay, needle) <==> exists i :: OccursAt(hay, needle, i)
  {
    if Contains(hay, needle) {
      var i := ContainsHasOccurrence(hay, needle);
    }
    forall i | OccursAt(hay, needle, i) ensures Contains(hay, needle) {
      OccurrenceIsContained(hay, needle, i);
    }
  }

  /** A needle longer than the text never occurs in it. */
  lemma {:induction false} ContainsNeedsRoom(hay: string, needle: string)
    requires |hay| < |needle|
    ensures !Contains(hay, needle)
  {
    if hay != [] {
      ContainsNeedsRoom(hay[1..], needle);
    }
  }

  /** An option's text matches the target when, trimmed and lower-cased, it
      contains the lower-cased target. */
  predicate Matches(target: string, option: string)
  {
    Contains(Lower(Strip(option)), Lower(target))
  }

  /** Index of the first option, at or after `from`, that matches the target. */
  function FirstMatch(options: seq<string>, target: string, from: nat): (r: Option<nat>)
    requires from <= |options|
    ensures r.Some? ==> from <= r.value < |options| && Matches(target, options[r.value])
    ensures r.Some? ==> forall j :: from <= j < r.value ==> !Matches(target, options[j])
    ensures r.None? <==> forall j :: from <= j < |options| ==> !Matches(target, options[j])
    decreases |options| - from
  {
    if from == |options| then None
    else if Matches(target, options[from]) then Some(from)
    else FirstMatch(options, target, from + 1)
  }

  /** Functional model of the choice: the first matching option, else the first
      option, else the error. */
  function ChooseOption(options: seq<string>, target: string): (r: Choice)
    ensures r.NoOptions? <==> options == []
    ensures r.Clicked? ==> r.index < |options|
    ensures r.Clicked? && r.matched ==>
      Matches(target, options[r.index]) && forall j :: 0 <= j < r.index ==> !Matches(target, options[j])
    ensures r.Clicked? && !r.matched ==>
      r.index == 0 && forall j :: 0 <= j < |options| ==> !Matches(target, options[j])
  {
    if options == [] then NoOptions
    else match FirstMatch(options, target, 0)
      case Some(i) => Clicked(i, true)
      case None => Clicked(0, false)
  }

  /** The option-selection loop: scans the options in order and stops at the
      first match; after the loop, falls back to the first option. */
  method SelectDropdownOption(options: seq<string>, optionText: string) returns (choice: Choice)
    ensures choice == ChooseOption(options, optionText)
  {
    if |options| > 0 {
      for i := 0 to |options|
        invariant forall j :: 0 <= j < i ==> !Matches(optionText, options[j])
      {
        var optionTextContent := Lower(Strip(options[i]));
        if Contains(optionTextContent, Lower(optionText)) {
          return Clicked(i, true);
        }
      }
      return Clicked(0, false);
    } else {
      return NoOptions;
    }
  }

  /** Lower-casing an already lower-cased string changes nothing. */
  lemma {:induction false} LowerIdempotent(s: string)
    ensures Lower(Lower(s)) == Lower(s)
  {
    if s != [] {
      LowerIdempotent(s[1..]);
      assert Lower(s)[1..] == Lower(s[1..]);
    }
  }

  /** Targets that agree up to ASCII case choose the same option. */
  lemma TargetCaseIgnored(options: seq<string>, t1: string, t2: string)
    requires Lower(t1) == Lower(t2)
    ensures ChooseOption(options, t1) == ChooseOption(options, t2)
  {
  }

  /** An empty target matches every option, so the first option is chosen as a match. */
  lemma EmptyTargetPicksFirst(options: seq<string>)
    requires options != []
    ensures ChooseOption(options, "") == Clicked(0, true)
  {
  }

  /** The household-type target matches its capitalised option text. */
  lemma HouseholdOptionMatches(target: string, option: string)
    requires target == "couple household" && option == "Couple Household"
    ensures Matches(target, option)
  {
    OptionTextIsTrimmed(option);
    OptionTextLowered(option, target);
    LowerIdempotent(option);
    assert target <= target;
  }

  /** The option text has no surrounding whitespace. */
  lemma OptionTextIsTrimmed(option: string)
    requires option == "Couple Household"
    ensures Strip(option) == option
  {
    assert StripLeading(option) == option;
    assert StripTrailing(option) == option;
  }

  /** Lower-casing the option text gives the target. */
  lemma OptionTextLowered(option: string, target: string)
    requires option == "Couple Household" && target == "couple household"
    ensures Lower(option) == target
  {
  }

  /** An option whose trimmed text is shorter than the target never matches it. */
  lemma ShortOptionNeverMatches(target: string, option: string)
    requires |option| < |target|
    ensures !Matches(target, option)
  {
    StripIsTrimmedSlice(option);
    ContainsNeedsRoom(Lower(Strip(option)), Lower(target));
  }

  /** The matching option is chosen over an earlier one that does not match. */
  lemma HouseholdChoice(target: string, option: string, other: string)
    requires target == "couple household" && option == "Couple Household" && other == "Flat share"
    ensures ChooseOption([other, option], target) == Clicked(1, true)
  {
    HouseholdOptionMatches(target, option);
    ShortOptionNeverMatches(target, other);
    assert [other, option][1] == option;
  }
}
