/**
 The random identifier of a registry: digit assembly and the rejection test.

 The runtime's random number source and the floating-point digit count
 (`log(2^bits) / log(base)`) stay outside the model. One call's digit count is
 a `Shape` (how many whole-range digits, and whether a reduced-range digit
 follows), and every candidate the call draws is a `Draw` of digit values that
 fits that shape.
 */
module RandomId {
  import opened Wrappers
  import opened Digits

  /** The digit count of one call: `whole` whole-range digits, plus one reduced-range digit when `partial`. */
  datatype Shape = Shape(whole: nat, partial: bool)

  /** The digit values one attempt draws, in drawing order; `lead` is the reduced-range digit. */
  datatype Draw = Draw(whole: seq<int>, lead: Option<int>)

  function Width(shape: Shape): nat {
    shape.whole + (if shape.partial then 1 else 0)
  }

  /**
   `draw` has the digit count of `shape`, and each value is a digit of `base`:
   `floor(random() * star)` with `star` equal to `base`, or to `base^rem` below
   `base` for the reduced-range digit.
   */
  predicate Fits(draw: Draw, shape: Shape, base: int) {
    && |draw.whole| == shape.whole
    && draw.lead.Some? == shape.partial
    && AllBelow(draw.whole, base)
    && (draw.lead.Some? ==> 0 <= draw.lead.value < base)
  }

  predicate AllFit(draws: seq<Draw>, shape: Shape, base: int) {
    forall k :: 0 <= k < |draws| ==> Fits(draws[k], shape, base)
  }

  /** All digit values of `draw` in drawing order, the reduced-range digit last. */
  function Drawn(draw: Draw): seq<int> {
    draw.whole + (if draw.lead.Some? then [draw.lead.value] else [])
  }

  lemma DrawnBelow(draw: Draw, shape: Shape, base: int)
    requires Fits(draw, shape, base)
    ensures |Drawn(draw)| == Width(shape)
    ensures AllBelow(Drawn(draw), base)
  {
  }

  /** The string one attempt assembles from `draw`. */
  function Text(draw: Draw, shape: Shape, base: int): string
    requires IsBase(base) && Fits(draw, shape, base)
  {
    DrawnBelow(draw, shape, base);
    Render(Drawn(draw), base)
  }

  /**
   The value of one attempt's string: the first digit drawn is the least
   significant and the reduced-range digit the most significant, so the value
   stays below `base^Width(shape)`.
   */
  lemma TextValue(draw: Draw, shape: Shape, base: int)
    requires IsBase(base) && Fits(draw, shape, base)
    ensures Parse(Text(draw, shape, base), base) == LittleEndian(Drawn(draw), base)
    ensures Parse(Text(draw, shape, base), base) < Pow(base, Width(shape))
  {
    DrawnBelow(draw, shape, base);
    RenderValue(Drawn(draw), base);
    LittleEndianBound(Drawn(draw), base);
  }

  /**
   The rejection test of `random()` with exact integers: a value is kept when it
   is below `2^bits`. For negative `bits`, `2^bits` is a fraction in (0, 1), so
   only the value 0 is kept.
   */
  predicate Accepts(value: int, bits: int) {
    if bits >= 0 then value < Pow(2, bits) else value == 0
  }

  /**
   Growing `bits` never turns an accepted value into a rejected one, so the
   growth in `generate` only widens what `random()` may return.
   */
  lemma AcceptsGrows(value: nat, bits: int, more: int)
    requires bits <= more
    ensures Accepts(value, bits) ==> Accepts(value, more)
  {
    if bits >= 0 {
      PowMonotone(2, bits, more);
    } else if more >= 0 {
      PowPositive(2, more);
    }
  }

  /** The value of one attempt's digits, first drawn least significant (`TextValue` reads it from the string). */
  function Value(draw: Draw, base: int): int {
    LittleEndian(Drawn(draw), base)
  }

  predicate Accepted(draw: Draw, shape: Shape, base: int, bits: int)
    requires IsBase(base) && Fits(draw, shape, base)
  {
    Accepts(Value(draw, base), bits)
  }

  /**
   What one call of `random()` returns when its attempts draw `draws`: the
   text of the first accepted draw, or `None` when every draw is rejected.
   */
  function Outcome(draws: seq<Draw>, shape: Shape, base: int, bits: int): (r: Option<string>)
    requires IsBase(base) && AllFit(draws, shape, base)
    ensures r.Some? <==> exists k :: 0 <= k < |draws| && Accepted(draws[k], shape, base, bits)
    ensures r.Some? ==> |r.value| == Width(shape) && AllDigits(r.value, base)
    ensures r.Some? ==> Accepts(Parse(r.value, base), bits)
  {
    if |draws| == 0 then
      None
    else if Accepted(draws[0], shape, base, bits) then
      TextValue(draws[0], shape, base);
      Some(Text(draws[0], shape, base))
    else
      var r := Outcome(draws[1..], shape, base, bits);
      assert forall k :: 1 <= k < |draws| ==> draws[k] == draws[1..][k - 1];
      r
  }

  /**
   A call whose digit count is 0 builds the empty string. It reads as 0, so the
   rejection test keeps it for every `bits`; `parseInt('')` is `NaN`, and
   `NaN >= 2^bits` is false, so `random()` returns `''` as well.
   */
  lemma ZeroWidthAccepted(draw: Draw, base: int, bits: int)
    requires IsBase(base) && Fits(draw, Shape(0, false), base)
    ensures Text(draw, Shape(0, false), base) == ""
    ensures Outcome([draw], Shape(0, false), base, bits) == Some("")
  {
    assert Drawn(draw) == [];
    if bits >= 0 {
      PowPositive(2, bits);
    }
  }

  /**
   Builds the string of one attempt as the loop of `random()` does: each
   whole-range digit is rendered and prepended, so the first one drawn ends up
   rightmost; the reduced-range digit, when there is one, is prepended last and
   is the leftmost character.
   */
  method Assemble(draw: Draw, shape: Shape, base: int) returns (res: string)
    requires IsBase(base) && Fits(draw, shape, base)
    ensures |res| == Width(shape)
    ensures forall k :: 0 <= k < shape.whole ==> res[|res| - 1 - k] == DigitChar(draw.whole[k])
    ensures draw.lead.Some? ==> res[0] == DigitChar(draw.lead.value)
    ensures res == Text(draw, shape, base)
  {
    res := "";
    var ii := 0;
    while ii < |draw.whole|
      invariant 0 <= ii <= |draw.whole|
      invariant res == Render(draw.whole[..ii], base)
    {
      RenderSnoc(draw.whole[..ii], draw.whole[ii], base);
      assert draw.whole[..ii + 1] == draw.whole[..ii] + [draw.whole[ii]];
      res := ToRadix(draw.whole[ii], base) + res;
      ii := ii + 1;
    }
    assert draw.whole[..ii] == draw.whole;
    if draw.lead.Some? {
      RenderSnoc(draw.whole, draw.lead.value, base);
      res := ToRadix(draw.lead.value, base) + res;
    } else {
      assert Drawn(draw) == draw.whole;
    }
  }

  /** One step of `Outcome` over the draws from position `k` on. */
  lemma OutcomeStep(draws: seq<Draw>, k: nat, shape: Shape, base: int, bits: int)
    requires IsBase(base) && AllFit(draws, shape, base) && k < |draws|
    ensures Accepted(draws[k], shape, base, bits) ==>
      Outcome(draws[k..], shape, base, bits) == Some(Text(draws[k], shape, base))
    ensures !Accepted(draws[k], shape, base, bits) ==>
      Outcome(draws[k..], shape, base, bits) == Outcome(draws[k + 1..], shape, base, bits)
  {
  }

  /**
   `random()`: assembles and tests one draw after another, and returns the first
   string whose value is below `2^bits`, with the number of attempts it took.
   */
  method Random(draws: seq<Draw>, shape: Shape, base: int, bits: int) returns (res: string, tries: nat)
    requires IsBase(base) && AllFit(draws, shape, base)
    requires Outcome(draws, shape, base, bits).Some?
    ensures 1 <= tries <= |draws|
    ensures res == Text(draws[tries - 1], shape, base)
    ensures |res| == Width(shape)
    ensures bits >= 0 ==> Parse(res, base) < Pow(2, bits)
    ensures forall k :: 0 <= k < tries - 1 ==> !Accepted(draws[k], shape, base, bits)
    ensures res == Outcome(draws, shape, base, bits).value
  {
    tries := 0;
    assert draws[0..] == draws;
    while true
      invariant 0 <= tries < |draws|
      invariant forall k :: 0 <= k < tries ==> !Accepted(draws[k], shape, base, bits)
      invariant Outcome(draws[tries..], shape, base, bits) == Outcome(draws, shape, base, bits)
      decreases |draws| - tries
    {
      res := Assemble(draws[tries], shape, base);
      TextValue(draws[tries], shape, base);
      OutcomeStep(draws, tries, shape, base, bits);
      tries := tries + 1;
      if Accepts(Parse(res, base), bits) {
        return;
      }
    }
  }
}
