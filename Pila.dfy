/** `Pila`: a stack on the `MeteSaca` chain; `mete` pushes at `cabeza`. */
module Pila {
  import opened Comun
  import opened MeteSaca

  class Pila<T> {
    var cabeza: Nodo?<T>
    var rabo: Nodo?<T>
    /** The chain's nodes from the top of the stack down, and their elements. */
    ghost var nodos: seq<Nodo<T>>
    ghost var elementos: seq<T>

    ghost predicate Valid()
      reads this, nodos
    {
      Cadena(cabeza, rabo, nodos, elementos)
    }

    constructor ()
      ensures Valid() && elementos == []
    {
      cabeza, rabo := null, null;
      nodos, elementos := [], [];
    }

    /** `esVacia()` of `MeteSaca`. */
    function EsVacia(): (r: bool)
      reads this, nodos
      requires Valid()
      ensures r <==> elementos == []
    {
      cabeza == null
    }

    /** `mete(elemento)`: throws on null; otherwise the element goes on top. */
    method Mete(elemento: Option<T>) returns (s: Salida)
      requires Valid()
      modifies this
      ensures Valid()
      ensures elemento.None? ==> s == Lanza(ArgumentoIlegal) && unchanged(this)
      ensures elemento.Some? ==> s == Normal && elementos == [elemento.valor] + old(elementos)
      ensures elemento.Some? && old(cabeza) == null ==> cabeza == rabo && cabeza != null
      ensures elemento.Some? && old(cabeza) != null ==>
                cabeza != null && cabeza.siguiente == old(cabeza) && rabo == old(rabo)
    {
      if elemento.None? {
        return Lanza(ArgumentoIlegal);
      }
      var m := new Nodo(elemento.valor);
      var c := cabeza;
      if c == null {
        cabeza := m;
        rabo := m;
      } else {
        m.siguiente := c;
        cabeza := m;
      }
      nodos := [m] + nodos;
      elementos := [elemento.valor] + elementos;
      s := Normal;
    }

    /** `toString()`: the elements from the top down, each followed by a
        line break; the empty stack gives the empty string. */
    method ToString(cadena: T -> string) returns (s: string)
      requires Valid()
      ensures s == Texto(elementos, cadena, "\n")
    {
      if EsVacia() {
        return "";
      }
      s := Recorre(cabeza, rabo, nodos, elementos, cadena, "\n");
    }
  }
}
