/** The singly linked chain shared by stacks and queues (`MeteSaca`): nodes
    from `cabeza` to `rabo` through `siguiente`. Only the part that `Pila` and
    `Cola` use is modelled; `saca` and `mira` are not part of this model. */
module MeteSaca {

  class Nodo<T> {
    var elemento: T
    var siguiente: Nodo?<T>

    constructor (elemento: T)
      ensures this.elemento == elemento && siguiente == null
    {
      this.elemento := elemento;
      siguiente := null;
    }
  }

  /** `nodos` are the chain from `cabeza` to `rabo`, in order, and
      `elementos` are their elements. */
  ghost predicate Cadena<T>(cabeza: Nodo?<T>, rabo: Nodo?<T>, nodos: seq<Nodo<T>>, elementos: seq<T>)
    reads nodos
  {
    && |elementos| == |nodos|
    && (nodos == [] ==> cabeza == null && rabo == null)
    && (nodos != [] ==> cabeza == nodos[0] && rabo == nodos[|nodos| - 1])
    && (forall i :: 0 <= i < |nodos| ==> nodos[i].elemento == elementos[i])
    && (forall i :: 0 <= i < |nodos| - 1 ==> nodos[i].siguiente == nodos[i + 1])
    && (nodos != [] ==> nodos[|nodos| - 1].siguiente == null)
  }

  /** The text `toString` builds: each element's text followed by `sep`. */
  function Texto<T>(elementos: seq<T>, cadena: T -> string, sep: string): (r: string)
    ensures elementos == [] ==> r == ""
    ensures |r| >= |elementos| * |sep|
  {
    if elementos == [] then "" else cadena(elementos[0]) + sep + Texto(elementos[1..], cadena, sep)
  }

  lemma {:induction false} TextoConcatena<T>(a: seq<T>, b: seq<T>, cadena: T -> string, sep: string)
    ensures Texto(a + b, cadena, sep) == Texto(a, cadena, sep) + Texto(b, cadena, sep)
  {
    if a != [] {
      TextoConcatena(a[1..], b, cadena, sep);
      assert (a + b)[1..] == a[1..] + b;
    } else {
      assert a + b == b;
    }
  }

  /** The loop of `toString` in `Pila` and `Cola`: walks from `cabeza`
      through `siguiente` appending each element's text and `sep`. */
  method Recorre<T>(cabeza: Nodo?<T>, ghost rabo: Nodo?<T>, ghost nodos: seq<Nodo<T>>,
                    ghost elementos: seq<T>, cadena: T -> string, sep: string)
    returns (s: string)
    requires Cadena(cabeza, rabo, nodos, elementos)
    ensures s == Texto(elementos, cadena, sep)
  {
    var c := cabeza;
    s := "";
    ghost var k := 0;
    while c != null
      invariant 0 <= k <= |nodos|
      invariant c == (if k < |nodos| then nodos[k] else null)
      invariant s == Texto(elementos[..k], cadena, sep)
      decreases |nodos| - k
    {
      TextoConcatena(elementos[..k], [elementos[k]], cadena, sep);
      assert elementos[..k + 1] == elementos[..k] + [elementos[k]];
      s := s + cadena(c.elemento) + sep;
      c := c.siguiente;
      k := k + 1;
    }
    assert elementos[..k] == elementos;
  }
}
