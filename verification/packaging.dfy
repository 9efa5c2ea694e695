/** The static packaging rule table (model/model.go). */
module Packaging {

  /** A weight ceiling in kilograms (0 means no ceiling) and a surcharge added to the price. */
  datatype PackagingRule = PackagingRule(maxWeight: real, extraCost: real)

  const Package: string := "package"
  const Carton: string := "carton"
  const Film: string := "film"

  /** The three known packaging kinds and their rules. */
  function GetPackagingRules(): (rules: map<string, PackagingRule>)
    ensures rules.Keys == {Package, Carton, Film}
    ensures forall name :: name in rules ==> rules[name].maxWeight >= 0.0 && rules[name].extraCost > 0.0
    ensures rules[Package] == PackagingRule(10.0, 5.0)
    ensures rules[Carton] == PackagingRule(30.0, 20.0)
    ensures rules[Film] == PackagingRule(0.0, 1.0)
  {
    map[Package := PackagingRule(10.0, 5.0),
        Carton := PackagingRule(30.0, 20.0),
        Film := PackagingRule(0.0, 1.0)]
  }

  /**
   * The command layer turns an order away when this is false. A ceiling of 0
   * never rejects; a positive ceiling rejects exactly the heavier weights.
   */
  function WeightAllowed(rule: PackagingRule, weight: real): (ok: bool)
    ensures rule.maxWeight <= 0.0 ==> ok
    ensures rule.maxWeight > 0.0 ==> (ok <==> weight <= rule.maxWeight)
  {
    !(rule.maxWeight > 0.0 && weight > rule.maxWeight)
  }
}
