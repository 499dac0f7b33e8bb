/**
  The small pieces of logic inside the landing page's components: the animated
  stat counter (digits of the stat text, their value, the "+" suffix), the
  infinite carousel's doubled list, the feature icon choice and the animation
  variant choice of `AnimatedText`.
 */
module LandingPage {

  import opened Options
  import opened Decimal
  import opened Arith

  // ---------------------------------------------------------------------------
  // Animated counter

  /** `value.replace(/\D/g, "")`: every character that is not an ASCII digit removed. */
  function DigitFilter(s: string): (r: string)
    ensures AllDigits(r)
    ensures |r| <= |s|
  {
    if |s| == 0 then []
    else (if IsDigit(s[0]) then [s[0]] else []) + DigitFilter(s[1..])
  }

  /** The filter distributes over concatenation, and on a single character keeps
      it exactly when it is a digit: so it keeps every digit, in order. */
  lemma {:induction false} DigitFilterAppend(s: string, t: string)
    ensures DigitFilter(s + t) == DigitFilter(s) + DigitFilter(t)
    decreases |s|
  {
    if |s| == 0 {
      assert s + t == t;
    } else {
      var head := if IsDigit(s[0]) then [s[0]] else [];
      assert (s + t)[0] == s[0];
      assert (s + t)[1..] == s[1..] + t;
      assert DigitFilter(s + t) == head + DigitFilter(s[1..] + t);
      DigitFilterAppend(s[1..], t);
      assert DigitFilter(s) == head + DigitFilter(s[1..]);
    }
  }

  lemma DigitFilterSingle(c: char)
    ensures DigitFilter([c]) == if IsDigit(c) then [c] else []
  {
  }

  /** A string is left unchanged exactly when it is all digits. */
  lemma {:induction false} DigitFilterFixedPoint(s: string)
    ensures DigitFilter(s) == s <==> AllDigits(s)
    decreases |s|
  {
    if |s| > 0 {
      DigitFilterFixedPoint(s[1..]);
      if DigitFilter(s) == s {
        assert |DigitFilter(s[1..])| <= |s[1..]|;
      }
    }
  }

  /** Applying the filter twice is applying it once. */
  lemma DigitFilterIdempotent(s: string)
    ensures DigitFilter(DigitFilter(s)) == DigitFilter(s)
  {
    DigitFilterFixedPoint(DigitFilter(s));
  }

  /** Every digit occurs in the output as often as in the input; nothing else occurs. */
  lemma {:induction false} DigitFilterCounts(s: string, c: char)
    ensures multiset(DigitFilter(s))[c] == if IsDigit(c) then multiset(s)[c] else 0
    decreases |s|
  {
    if |s| > 0 {
      DigitFilterCounts(s[1..], c);
      assert s == [s[0]] + s[1..];
    }
  }

  /** The filter leaves nothing exactly when the text has no digit. */
  lemma DigitFilterEmpty(value: string)
    ensures DigitFilter(value) == [] <==> forall i :: 0 <= i < |value| ==> !IsDigit(value[i])
  {
    var digits := DigitFilter(value);
    if |digits| > 0 {
      DigitFilterCounts(value, digits[0]);
      assert digits[0] in multiset(digits);
      var i :| 0 <= i < |value| && value[i] == digits[0];
    } else {
      forall i | 0 <= i < |value|
        ensures !IsDigit(value[i])
      {
        DigitFilterCounts(value, value[i]);
        assert value[i] in multiset(value);
      }
    }
  }

  /** The number the counter animates to: `parseInt` of the stat's digits. It is
      `None`, standing for `NaN`, exactly when the stat has no digit at all. */
  function CounterTarget(value: string): (r: Option<nat>)
    ensures r.None? <==> forall i :: 0 <= i < |value| ==> !IsDigit(value[i])
  {
    DigitFilterEmpty(value);
    ParseDigits(DigitFilter(value))
  }

  /** `value.includes("+") ? "+" : ""`. */
  function Suffix(value: string): (r: string)
    ensures r == "+" <==> '+' in value
    ensures r == "" <==> '+' !in value
  {
    if '+' in value then "+" else ""
  }

  /** A stat written as a number, with or without a trailing "+", animates to that
      number and keeps exactly its "+": the counter's final text is the stat text. */
  lemma StatRoundTrip(n: nat, plus: bool)
    ensures
      var stat := ToDecimal(n) + (if plus then "+" else "");
      && CounterTarget(stat) == Some(n)
      && Suffix(stat) == (if plus then "+" else "")
      && ToDecimal(CounterTarget(stat).value) + Suffix(stat) == stat
  {
    var digits := ToDecimal(n);
    var tail := if plus then "+" else "";
    DigitFilterAppend(digits, tail);
    DigitFilterSingle('+');
    DigitFilterFixedPoint(digits);
    assert DigitFilter(digits + tail) == digits;
    ParseToDecimal(n);
    if !plus {
      assert digits + tail == digits;
      assert forall i :: 0 <= i < |digits| ==> digits[i] != '+';
    }
  }

  /** The four stats of the page animate to 5, 100, 10 and 50, each with a "+". */
  lemma ShippedStats()
    ensures CounterTarget("5+") == Some(5) && Suffix("5+") == "+"
    ensures CounterTarget("100+") == Some(100) && Suffix("100+") == "+"
    ensures CounterTarget("10+") == Some(10) && Suffix("10+") == "+"
    ensures CounterTarget("50+") == Some(50) && Suffix("50+") == "+"
  {
    PlusStat(5, "5+");
    PlusStat(10, "10+");
    assert ToDecimal(10) == "10";
    PlusStat(100, "100+");
    PlusStat(50, "50+");
  }

  lemma PlusStat(n: nat, stat: string)
    requires stat == ToDecimal(n) + "+"
    ensures CounterTarget(stat) == Some(n) && Suffix(stat) == "+"
  {
    StatRoundTrip(n, true);
  }

  // ---------------------------------------------------------------------------
  // Infinite carousel

  /** `[...items, ...items]`: the list the carousel renders, so that the second
      copy is in view when the first has scrolled out. */
  function Doubled<T>(items: seq<T>): (r: seq<T>)
    ensures |r| == 2 * |items|
    ensures forall i :: 0 <= i < |items| ==> r[i] == items[i] && r[i + |items|] == items[i]
  {
    items + items
  }

  /** Position `i` of the rendered list shows item `i mod |items|`. */
  lemma DoubledIsCyclic<T>(items: seq<T>)
    ensures forall i :: 0 <= i < |Doubled(items)| ==> Doubled(items)[i] == items[i % |items|]
  {
    var r := Doubled(items);
    forall i | 0 <= i < |r|
      ensures r[i] == items[i % |items|]
    {
      if i >= |items| {
        DivModUnique(i, |items|, 1, i - |items|);
      } else {
        DivModUnique(i, |items|, 0, i);
      }
    }
  }

  // ---------------------------------------------------------------------------
  // Feature icons

  datatype Icon = Zap | Heart | Gamepad2 | Coffee

  /** The icon drawn for a feature's `icon` name; unknown names fall back to Coffee. */
  function IconFor(name: string): (icon: Icon)
    ensures icon == Zap <==> name == "zap"
    ensures icon == Heart <==> name == "heart"
    ensures icon == Gamepad2 <==> name == "gamepad2"
    ensures icon == Coffee <==> name !in {"zap", "heart", "gamepad2"}
  {
    if name == "zap" then Zap
    else if name == "heart" then Heart
    else if name == "gamepad2" then Gamepad2
    else Coffee
  }

  /** The name each icon is listed under in the page's content. */
  function IconName(icon: Icon): string {
    match icon
    case Zap => "zap"
    case Heart => "heart"
    case Gamepad2 => "gamepad2"
    case Coffee => "coffee"
  }

  /** Every icon is reachable from its listed name, so the four features of the
      page get four different icons. */
  lemma IconNamesRoundTrip(icon: Icon)
    ensures IconFor(IconName(icon)) == icon
  {
  }

  lemma ShippedFeatureIcons()
    ensures [IconFor("zap"), IconFor("heart"), IconFor("gamepad2"), IconFor("coffee")]
            == [Zap, Heart, Gamepad2, Coffee]
  {
  }

  // ---------------------------------------------------------------------------
  // Text animation variants

  datatype Variants = TextVariants | SlideFromLeftVariants | SlideFromRightVariants

  /** The default of `AnimatedText`'s `variant` property. */
  const DefaultVariant := "visible"

  /** `getVariants()`: the two slide names pick their variants, every other name,
      the default included, picks the plain text variants. */
  function VariantsFor(variant: string): (v: Variants)
    ensures v == SlideFromLeftVariants <==> variant == "slideFromLeft"
    ensures v == SlideFromRightVariants <==> variant == "slideFromRight"
    ensures v == TextVariants <==> variant != "slideFromLeft" && variant != "slideFromRight"
  {
    match variant
    case "slideFromLeft" => SlideFromLeftVariants
    case "slideFromRight" => SlideFromRightVariants
    case _ => TextVariants
  }

  /** The name each variants object is selected by; the text variants by the default. */
  function VariantName(v: Variants): string {
    match v
    case TextVariants => DefaultVariant
    case SlideFromLeftVariants => "slideFromLeft"
    case SlideFromRightVariants => "slideFromRight"
  }

  /** Each of the three variants objects is selected by its name, and the default
      name selects the text variants. */
  lemma VariantNamesRoundTrip(v: Variants)
    ensures VariantsFor(VariantName(v)) == v
    ensures VariantsFor(DefaultVariant) == TextVariants
  {
  }
}
