/**
 * Traded volume split into a buy part and a sell part. A signed amount
 * becomes buy volume when positive and sell volume (its magnitude)
 * otherwise; the total is the sum of the parts, and volumes add and
 * subtract part by part.
 */
module Volume {

  datatype Volume = Volume(buy: real, sell: real)

  /** Both parts are non-negative, as every volume built from an amount is. */
  predicate NonNegative(v: Volume) { v.buy >= 0.0 && v.sell >= 0.0 }

  /** `Volume(d)` / `setVolume(d)`: the sign of the amount picks the side. */
  function FromAmount(amount: real): (v: Volume)
    ensures NonNegative(v)
    ensures v.buy == 0.0 || v.sell == 0.0
  {
    if amount > 0.0 then Volume(amount, 0.0) else Volume(0.0, -amount)
  }

  /** `getVolume()`. */
  function Total(v: Volume): real { v.buy + v.sell }

  /** Buy minus sell: the signed amount a volume stands for. */
  function Signed(v: Volume): real { v.buy - v.sell }

  function Add(a: Volume, b: Volume): Volume { Volume(a.buy + b.buy, a.sell + b.sell) }

  function Sub(a: Volume, b: Volume): Volume { Volume(a.buy - b.buy, a.sell - b.sell) }

  function Scale(a: Volume, d: real): Volume { Volume(a.buy * d, a.sell * d) }

  /** `Volume == Volume` compares both parts. */
  predicate Equal(a: Volume, b: Volume) { a.sell == b.sell && a.buy == b.buy }

  /** `Volume == double` compares the total. */
  predicate EqualsAmount(a: Volume, d: real) { d == Total(a) }

  /** A volume made from an amount gives the amount back as its signed value,
    * its magnitude as its total, and never has a negative total. */
  lemma FromAmountRoundTrip(amount: real)
    ensures Signed(FromAmount(amount)) == amount
    ensures Total(FromAmount(amount)) == (if amount < 0.0 then -amount else amount)
    ensures Total(FromAmount(amount)) >= 0.0
  {
  }

  /** Addition and subtraction act part by part: totals add, subtraction undoes
    * addition, and adding keeps both parts non-negative. */
  lemma AddSubParts(a: Volume, b: Volume)
    ensures Total(Add(a, b)) == Total(a) + Total(b)
    ensures Signed(Add(a, b)) == Signed(a) + Signed(b)
    ensures Equal(Sub(Add(a, b), b), a)
    ensures NonNegative(a) && NonNegative(b) ==> NonNegative(Add(a, b)) && Total(Add(a, b)) >= 0.0
  {
  }

  /** Equality of parts implies equality of totals; the converse fails. */
  lemma EqualityKinds()
    ensures forall a, b :: Equal(a, b) ==> EqualsAmount(a, Total(b))
    ensures EqualsAmount(Volume(1.0, 0.0), Total(Volume(0.0, 1.0))) && !Equal(Volume(1.0, 0.0), Volume(0.0, 1.0))
  {
  }

  /** `Volume(1.3) + Volume(-1.5)` is 1.3 bought and 1.5 sold, 2.8 in all; the
    * sell-only `Volume(-1.5)` equals 1.5. */
  lemma MixedVolumeExample()
    ensures Add(FromAmount(1.3), FromAmount(-1.5)) == Volume(1.3, 1.5)
    ensures EqualsAmount(FromAmount(1.3), 1.3)
    ensures EqualsAmount(FromAmount(-1.5), 1.5)
    ensures EqualsAmount(Add(FromAmount(1.3), FromAmount(-1.5)), 2.8)
  {
  }
}
