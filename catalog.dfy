/** The persisted game record that the content API delivers for a console. */
module Catalog {
  /**
   * A game as listed under its console. `release` is the date text the API
   * returns; the table parses it only when a date filter asks for it.
   */
  datatype Game = Game(
    id: string,
    slug: string,
    title: string,
    genre: string,
    upc: string,
    publisher: string,
    developer: string,
    rating: string,
    release: string,
    description: string)
}
