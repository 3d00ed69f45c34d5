/** `Cola`: a queue on the `MeteSaca` chain; `mete` appends at `rabo`. */
module Cola {
  import opened Comun
  import opened MeteSaca

  class Cola<T> {
    var cabeza: Nodo?<T>
    var rabo: Nodo?<T>
    /** The chain's nodes from the front of the queue to its end, and their
        elements. */
    ghost var nodos: seq<Nodo<T>>
    ghost var elementos: seq<T>

    ghost predicate Valid()
      reads this, nodos
    {
      && Cadena(cabeza, rabo, nodos, elementos)
      && (forall i, j :: 0 <= i < j < |nodos| ==> nodos[i] != nodos[j])
    }

    constructor ()
      ensures Valid() && elementos == []
    {
      cabeza, rabo := null, null;
      nodos, elementos := [], [];
    }

    /** `esVacia()` of `MeteSaca`. */
    function EsVacia(): (r: bool)
      reads this, nodos
      requires Valid()
      ensures r <==> elementos == []
    {
      cabeza == null
    }

    /** `mete(elemento)`: throws on null; otherwise the element joins the end
        of the queue. */
    method Mete(elemento: Option<T>) returns (s: Salida)
      requires Valid()
      modifies this, rabo
      ensures Valid()
      ensures elemento.None? ==> s == Lanza(ArgumentoIlegal) && unchanged(this) && unchanged(nodos)
      ensures elemento.Some? ==> s == Normal && elementos == old(elementos) + [elemento.valor]
      ensures elemento.Some? && old(cabeza) == null ==> cabeza == rabo && cabeza != null
      ensures elemento.Some? && old(cabeza) != null ==>
                cabeza == old(cabeza) && old(rabo).siguiente == rabo && rabo != null
    {
      if elemento.None? {
        return Lanza(ArgumentoIlegal);
      }
      var n := new Nodo(elemento.valor);
      if cabeza == null {
        cabeza := n;
        rabo := n;
      } else {
        rabo.siguiente := n;
        rabo := n;
      }
      nodos := nodos + [n];
      elementos := elementos + [elemento.valor];
      s := Normal;
    }

    /** `toString()`: the elements from front to end, each followed by a
        comma; the empty queue gives the empty string. */
    method ToString(cadena: T -> string) returns (s: string)
      requires Valid()
      ensures s == Texto(elementos, cadena, ",")
    {
      if EsVacia() {
        return "";
      }
      s := Recorre(cabeza, rabo, nodos, elementos, cadena, ",");
    }
  }
}
