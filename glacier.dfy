/** The glacier record of glaciers.py: identity, location and code fixed, mass balances growing in place. */
module GlacierEntity {
  import opened MassBalance

  /** A glacier as a value: what the catalog's queries read of it. */
  datatype GlacierView = GlacierView(
    id: string,
    name: string,
    unit: string,
    coordinates: (real, real),
    code: int,
    balances: map<int, real>)

  /** A glacier with at least one measurement. */
  predicate Measured(g: GlacierView)
  {
    |g.balances| > 0
  }

  class Glacier {
    const id: string
    const name: string
    const unit: string
    /** (latitude, longitude) */
    const coordinates: (real, real)
    /** The three-digit classification, the attribute `type` of the source. */
    const code: int
    /** year -> net mass balance */
    var massBalances: map<int, real>

    /**
     * The constructor's assertions check only the kinds of the arguments (strings, numbers, an
     * integer code), which the parameter types here already fix; no length, range or format of
     * any field is checked.
     */
    constructor (glacierId: string, name: string, unit: string, lat: real, lon: real, code: int)
      ensures this.id == glacierId && this.name == name && this.unit == unit
      ensures this.coordinates == (lat, lon) && this.code == code
      ensures massBalances == map[]
    {
      this.id := glacierId;
      this.name := name;
      this.unit := unit;
      this.coordinates := (lat, lon);
      this.code := code;
      this.massBalances := map[];
    }

    ghost function Snapshot(): (v: GlacierView)
      reads this
    {
      GlacierView(id, name, unit, coordinates, code, massBalances)
    }

    /**
     * A year not yet present gets exactly the given balance; a present year gets the balance
     * added when the reading is partial and is left alone when it is full; no other year changes.
     */
    method AddMassBalanceMeasurement(year: int, massBalance: real, partial: bool)
      modifies this
      ensures massBalances == Accumulate(old(massBalances), Reading(year, massBalance, partial))
      ensures year !in old(massBalances) ==> massBalances == old(massBalances)[year := massBalance]
      ensures year in old(massBalances) && partial ==>
        massBalances == old(massBalances)[year := old(massBalances)[year] + massBalance]
      ensures year in old(massBalances) && !partial ==> massBalances == old(massBalances)
    {
      if year in massBalances {
        if partial {
          massBalances := massBalances[year := massBalances[year] + massBalance];
        }
      } else {
        massBalances := massBalances[year := massBalance];
      }
    }
  }
}
