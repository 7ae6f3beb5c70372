/** config/constants.js: the category labels and the price table that registration,
    bulk import and the question schema share. */
module Constants {
  import opened Wrappers

  const JuniorLabel: string := "Class 6th to 10th"
  const SeniorLabel: string := "Class 11th / 12th or College"

  /** `USER_CATEGORIES`, as (key, label) entries in declaration order. */
  const UserCategories: seq<(string, string)> := [("JUNIOR", JuniorLabel), ("SENIOR", SeniorLabel)]

  /** The key under which `PRICES` lists the printed-book add-on. */
  const HardCopyKey: string := "hardCopy"

  /** `PRICES`: one entry per category label, plus the hard-copy fee. */
  const Prices: map<string, int> := map[JuniorLabel := 300, SeniorLabel := 500, HardCopyKey := 300]

  /** `Object.values(entries)`: the labels, in entry order. */
  function Values(entries: seq<(string, string)>): (r: seq<string>)
    ensures |r| == |entries|
    ensures forall i :: 0 <= i < |entries| ==> r[i] == entries[i].1
  {
    if entries == [] then [] else [entries[0].1] + Values(entries[1..])
  }

  /** `USER_CATEGORY_ENUM`. */
  function UserCategoryEnum(): seq<string> {
    Values(UserCategories)
  }

  /** The property names every object literal inherits from `Object.prototype`: looking
      one of them up in `PRICES` yields a function, or for `__proto__` the prototype
      object itself, rather than `undefined`. */
  const InheritedNames: set<string> :=
    {"constructor", "__proto__", "__defineGetter__", "__defineSetter__", "__lookupGetter__",
     "__lookupSetter__", "hasOwnProperty", "isPrototypeOf", "propertyIsEnumerable",
     "toLocaleString", "toString", "valueOf"}

  /** `PRICES[key] || 0`: what the price table yields for a property name. A listed name
      yields its price; an inherited name yields something truthy that is not a number
      (`None` here); any other name, including the text "undefined" of a missing
      category, yields 0. */
  function PriceLookup(key: string): (p: Option<int>)
    ensures p.None? <==> key in InheritedNames
    ensures p.Some? ==> p.value >= 0 && (p.value > 0 <==> key in Prices)
  {
    if key in Prices && Prices[key] != 0 then Some(Prices[key])
    else if key in InheritedNames then None
    else Some(0)
  }

  /** The text JavaScript's `+` makes of what `PRICES[key]` inherits: the source text the
      V8 engine gives a built-in function, or "[object Object]" for the prototype. */
  function InheritedText(key: string): (text: string)
    ensures |text| > 0
  {
    if key == "__proto__" then "[object Object]"
    else if key == "constructor" then "function Object() { [native code] }"
    else "function " + key + "() { [native code] }"
  }

  /** `PRICES.hardCopy`. */
  function HardCopyFee(): (fee: int)
    ensures PriceLookup(HardCopyKey) == Some(fee)
  {
    Prices[HardCopyKey]
  }

  /** The concrete price list: junior 300, senior 500, hard copy 300; the labels the user
      schema accepts but the table does not list ("Class 11th / 12th", "College") cost 0,
      and so does a missing category; "constructor" yields no number. */
  lemma PriceTable()
    ensures PriceLookup(JuniorLabel) == Some(300)
    ensures PriceLookup(SeniorLabel) == Some(500)
    ensures HardCopyFee() == 300
    ensures PriceLookup("Class 11th / 12th") == Some(0)
    ensures PriceLookup("College") == Some(0)
    ensures PriceLookup("undefined") == Some(0)
    ensures PriceLookup("constructor") == None
  {
  }

  /** `USER_CATEGORY_ENUM` is exactly the junior label followed by the senior label. */
  lemma CategoryEnumOrder()
    ensures UserCategoryEnum() == [JuniorLabel, SeniorLabel]
  {
  }

  /** Every category of `USER_CATEGORY_ENUM` has a positive price. */
  lemma EveryCategoryPriced()
    ensures forall c :: c in UserCategoryEnum() ==> c in Prices && PriceLookup(c).Some? && PriceLookup(c).value > 0
  {
    CategoryEnumOrder();
  }
}
