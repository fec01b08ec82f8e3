/** What the API addresses in the attached catalogs. */
module Catalogs {

  /** A schema of a catalog. */
  datatype Target = Target(catalog: string, schema: string)

  /** The version served for a schema; none when its marker was never read. */
  datatype Version<+M> = NoVersion | At(marker: M)
}
