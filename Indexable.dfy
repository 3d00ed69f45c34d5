/** `ComparableIndexable`: the elements of the Dijkstra heaps. An element
    compares by an integer key and remembers the slot it occupies in the
    heap that holds it (-1 when it is in none). */
module Indexables {

  class Indexable {
    /** The key `compareTo` compares by. */
    const clave: int
    /** `getIndice()`/`setIndice(int)`. */
    var indice: int

    /** A fresh element is in no heap (the index -1 of `Adaptador`). */
    constructor (clave: int)
      ensures this.clave == clave && indice == -1
    {
      this.clave := clave;
      indice := -1;
    }
  }
}
