/**
 * What both glossary tools share: the space the glossary lives in, the
 * five categories with the titles of their parent pages, and the label the
 * import puts on every term page.
 */
module Glossary {
  import opened Optional

  const SpaceKey: string := "iassupport"

  /** The category names (lower case) and the titles of their parent
      pages, in the order the mapping lists them. */
  const CategoryMapping: seq<(string, string)> := [
    ("enterprise assessment", "Enterprise Assessment"),
    ("enterprise property tax", "Enterprise Property Tax"),
    ("enterprise tools", "Enterprise Tools"),
    ("common rolltypes", "Common Rolltypes"),
    ("general terms", "General Terms")
  ]

  const LabelPrefix: string := "global"
  const GlossaryLabel: string := "glossary-terms"

  /** `dict.get` on a mapping given as its list of pairs. */
  function Lookup(mapping: seq<(string, string)>, key: string): (r: Option<string>)
    ensures r.None? <==> forall k | 0 <= k < |mapping| :: mapping[k].0 != key
    ensures r.Some? ==> exists k | 0 <= k < |mapping| ::
      mapping[k] == (key, r.value) && forall j | 0 <= j < k :: mapping[j].0 != key
    decreases |mapping|
  {
    if mapping == [] then None
    else if mapping[0].0 == key then Some(mapping[0].1)
    else
      var r := Lookup(mapping[1..], key);
      assert forall k | 1 <= k < |mapping| :: mapping[k] == mapping[1..][k - 1];
      r
  }
}
