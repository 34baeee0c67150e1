/**
  The record shapes the berry store works with.

  `NamedRef` is one entry of the list endpoint's `results` array: a name and
  an opaque URL that this model never dereferences. `Berry` is the detailed
  record the store caches by name; the store only stores and hands it back,
  so its fields carry no logic here.
 */
module BerryTypes {

  /** The conventional optional value, standing for `T | null`. */
  datatype Option<+T> = None | Some(value: T)

  /** One `{name, url}` entry of the list endpoint's response. */
  datatype NamedRef = NamedRef(name: string, url: string)

  /** One flavour entry of a detailed berry. */
  datatype FlavorPotency = FlavorPotency(potency: int, flavor: NamedRef)

  /** The detailed berry record, as returned for a single name. */
  datatype Berry = Berry(
    id: int,
    name: string,
    growthTime: int,
    maxHarvest: int,
    naturalGiftPower: int,
    size: int,
    smoothness: int,
    soilDryness: int,
    firmness: NamedRef,
    flavors: seq<FlavorPotency>,
    item: NamedRef,
    naturalGiftType: NamedRef
  )
}
