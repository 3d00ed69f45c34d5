/** `MonticuloMinimo`: a binary min-heap stored level by level in an array.
    Slot `i` has its children at `2i+1` and `2i+2`, and every element
    remembers its slot through its index. */
module MonticuloMinimo {
  import opened Comun
  import opened Indexables

  /** The parent slot of slot `i > 0`; for `i > 0` Java's truncating
      division agrees with Dafny's. */
  function Padre(i: int): int
  {
    (i - 1) / 2
  }

  /** The keys of a sequence of elements, in order. */
  function Claves(c: seq<Indexable>): (r: seq<int>)
    ensures |r| == |c|
  {
    seq(|c|, i requires 0 <= i < |c| => c[i].clave)
  }

  /** A slot `i > 0` is a child of its parent. */
  lemma {:induction false} PadreHijo(i: int)
    requires 0 < i
    ensures 0 <= Padre(i) < i
    ensures i == 2 * Padre(i) + 1 || i == 2 * Padre(i) + 2
  {
  }

  /** The children of `p` have `p` as parent. */
  lemma {:induction false} HijoPadre(p: int)
    requires 0 <= p
    ensures Padre(2 * p + 1) == p && Padre(2 * p + 2) == p
  {
  }

  /** The pair of `p` and its child slot `h` is in order (or `h` is not a
      slot of `c`). */
  ghost predicate Arista(c: seq<Indexable>, p: int, h: int)
    requires 0 <= p < |c| && 0 <= h
  {
    h < |c| ==> c[p].clave <= c[h].clave
  }

  /** Both children of `p` have keys at least the key of `p`. */
  ghost predicate HijosOrdenados(c: seq<Indexable>, p: int)
    requires 0 <= p < |c|
  {
    Arista(c, p, 2 * p + 1) && Arista(c, p, 2 * p + 2)
  }

  /** Heap order: no slot has a smaller key than its parent. */
  ghost predicate EsMonticulo(c: seq<Indexable>)
  {
    forall p :: 0 <= p < |c| ==> HijosOrdenados(c, p)
  }

  /** The pairs of `p` and its children, except a pair whose child is `k`,
      are in order. */
  ghost predicate HijosOrdenadosSalvo(c: seq<Indexable>, p: int, k: int)
    requires 0 <= p < |c|
  {
    (2 * p + 1 != k ==> Arista(c, p, 2 * p + 1)) && (2 * p + 2 != k ==> Arista(c, p, 2 * p + 2))
  }

  /** Heap order except around slot `k`, whose key may be anything: every
      parent-child pair that does not involve `k` is ordered, and the parent
      of `k` is not above the children of `k`. */
  ghost predicate Salvo(c: seq<Indexable>, k: int)
  {
    (forall p :: 0 <= p < |c| && p != k ==> HijosOrdenadosSalvo(c, p, k))
    && (0 < k < |c| ==> 0 <= Padre(k) < |c| && Arista(c, Padre(k), 2 * k + 1) && Arista(c, Padre(k), 2 * k + 2))
  }

  /** Heap order except between `k` and its parent: what `haciaArriba` fixes. */
  ghost predicate ArribaPendiente(c: seq<Indexable>, k: int)
  {
    Salvo(c, k) && (0 <= k < |c| ==> HijosOrdenados(c, k))
  }

  /** Heap order except between `k` and its children: what `haciaAbajo` fixes. */
  ghost predicate AbajoPendiente(c: seq<Indexable>, k: int)
  {
    Salvo(c, k) && (0 < k < |c| ==> 0 <= Padre(k) < |c| && Arista(c, Padre(k), k))
  }

  /** A heap is exactly a sequence with neither pending repair at `k`. */
  lemma {:induction false} MonticuloSinPendientes(c: seq<Indexable>, k: int)
    requires 0 <= k
    ensures EsMonticulo(c) <==> ArribaPendiente(c, k) && AbajoPendiente(c, k)
  {
    if 0 < k < |c| {
      PadreHijo(k);
    }
    if EsMonticulo(c) {
      if 0 < k < |c| {
        assert HijosOrdenados(c, Padre(k)) && HijosOrdenados(c, k);
      }
      forall p | 0 <= p < |c| && p != k
        ensures HijosOrdenadosSalvo(c, p, k)
      {
        assert HijosOrdenados(c, p);
      }
    }
    if ArribaPendiente(c, k) && AbajoPendiente(c, k) {
      forall p | 0 <= p < |c|
        ensures HijosOrdenados(c, p)
      {
        if p != k {
          assert HijosOrdenadosSalvo(c, p, k);
        }
      }
    }
  }

  /** `c` with slots `i` and `j` exchanged. */
  function Intercambio(c: seq<Indexable>, i: int, j: int): (r: seq<Indexable>)
    requires 0 <= i < |c| && 0 <= j < |c|
    ensures |r| == |c| && multiset(r) == multiset(c)
    ensures multiset(Claves(r)) == multiset(Claves(c))
  {
    assert Claves(c[i := c[j]][j := c[i]]) == Claves(c)[i := c[j].clave][j := c[i].clave];
    c[i := c[j]][j := c[i]]
  }

  /** An exchange keeps the same elements. */
  lemma {:induction false} MiembrosIntercambio(c: seq<Indexable>, i: int, j: int)
    requires 0 <= i < |c| && 0 <= j < |c|
    ensures forall x :: x in Intercambio(c, i, j) <==> x in c
  {
    var r := Intercambio(c, i, j);
    forall x
      ensures x in r <==> x in c
    {
      assert x in r <==> x in multiset(r);
      assert x in c <==> x in multiset(c);
    }
  }

  /** The root of a heap holds a least key. */
  lemma {:induction false} RaizMinima(c: seq<Indexable>, i: int)
    requires EsMonticulo(c) && 0 <= i < |c|
    ensures c[0].clave <= c[i].clave
    decreases i
  {
    if i > 0 {
      PadreHijo(i);
      RaizMinima(c, Padre(i));
      assert HijosOrdenados(c, Padre(i));
    }
  }

  /** One step of `haciaAbajo`: `k` is exchanged with its smaller child `a`,
      which leaves only the repair below `a` pending. */
  lemma {:induction false} PasoAbajo(c: seq<Indexable>, k: int, a: int)
    requires Salvo(c, k) && 0 <= k && (a == 2 * k + 1 || a == 2 * k + 2) && a < |c|
    requires c[a].clave < c[k].clave
    requires 2 * k + 1 < |c| ==> c[a].clave <= c[2 * k + 1].clave
    requires 2 * k + 2 < |c| ==> c[a].clave <= c[2 * k + 2].clave
    ensures AbajoPendiente(Intercambio(c, k, a), a)
  {
    var t := Intercambio(c, k, a);
    HijoPadre(k);
    if k > 0 {
      PadreHijo(k);
    }
    forall p | 0 <= p < |t| && p != a
      ensures HijosOrdenadosSalvo(t, p, a)
    {
      if p != k && p != Padre(k) {
        assert HijosOrdenadosSalvo(c, p, k);
      } else if p != k {
        assert HijosOrdenadosSalvo(c, p, k);
      }
    }
    assert HijosOrdenadosSalvo(c, a, k);
  }

  /** One step of `haciaArriba`: `k` is exchanged with a larger parent, which
      leaves only the repair above the parent pending. */
  lemma {:induction false} PasoArriba(c: seq<Indexable>, k: int)
    requires Salvo(c, k) && 0 < k < |c| && c[Padre(k)].clave > c[k].clave
    ensures ArribaPendiente(c, k)
    ensures ArribaPendiente(Intercambio(c, Padre(k), k), Padre(k))
  {
    var q := Padre(k);
    var t := Intercambio(c, q, k);
    PadreHijo(k);
    HijoPadre(k);
    HijoPadre(q);
    if q > 0 {
      PadreHijo(q);
    }
    forall p | 0 <= p < |t| && p != q
      ensures HijosOrdenadosSalvo(t, p, q)
    {
      assert HijosOrdenadosSalvo(c, p, k) || p == k;
    }
    if q > 0 {
      assert HijosOrdenadosSalvo(c, Padre(q), k);
    }
    assert HijosOrdenadosSalvo(c, q, k);
  }

  /** A new last element leaves only the order above it pending. */
  lemma {:induction false} SalvoAlAgregar(c: seq<Indexable>, e: Indexable)
    requires EsMonticulo(c)
    ensures Salvo(c + [e], |c|)
  {
    var t := c + [e];
    forall p | 0 <= p < |t| && p != |c|
      ensures HijosOrdenadosSalvo(t, p, |c|)
    {
      assert HijosOrdenados(c, p);
    }
    if 0 < |c| {
      PadreHijo(|c|);
    }
  }

  /** Moving the last element into slot `e` and dropping the last slot
      leaves only the order around slot `e` pending. */
  lemma {:induction false} SalvoAlQuitar(c: seq<Indexable>, e: int)
    requires EsMonticulo(c) && 0 <= e < |c|
    ensures Salvo(Intercambio(c, e, |c| - 1)[..|c| - 1], e)
  {
    var t := Intercambio(c, e, |c| - 1)[..|c| - 1];
    forall p | 0 <= p < |t| && p != e
      ensures HijosOrdenadosSalvo(t, p, e)
    {
      assert HijosOrdenados(c, p);
    }
    if 0 < e < |t| {
      PadreHijo(e);
      assert HijosOrdenados(c, Padre(e)) && HijosOrdenados(c, e);
    }
  }

  /** What removing slot `e` leaves: the last element moved into slot `e`
      and the last slot dropped is `c` without `c[e]`, with only the order
      around slot `e` pending. */
  lemma {:induction false} Quitado(c: seq<Indexable>, e: int)
    requires EsMonticulo(c) && 0 <= e < |c|
    ensures var t := Intercambio(c, e, |c| - 1)[..|c| - 1];
              Salvo(t, e) && multiset(t) == multiset(c) - multiset{c[e]}
              && multiset(Claves(t)) == multiset(Claves(c)) - multiset{c[e].clave}
  {
    var x := c[e];
    var s := Intercambio(c, e, |c| - 1);
    var t := s[..|c| - 1];
    SalvoAlQuitar(c, e);
    assert s == t + [x];
    assert Claves(s) == Claves(t) + [x.clave];
  }

  /** Growing a prefix of distinct elements by one element. */
  lemma {:induction false} PrefijoSiguiente(s: seq<Indexable>, i: int)
    requires 0 <= i < |s|
    requires forall a, b :: 0 <= a < b < |s| ==> s[a] != s[b]
    ensures s[..i + 1] == s[..i] + [s[i]] && s[i] !in s[..i]
    ensures Claves(s[..i + 1]) == Claves(s[..i]) + [s[i].clave]
  {
    assert s[..i + 1] == s[..i] + [s[i]];
  }

  /** The next size of a full array: it doubles, and an array of size 0
      grows to one slot. */
  function Capacidad(longitud: nat): (r: nat)
    ensures r > longitud
    ensures longitud > 0 ==> r == 2 * longitud
  {
    if longitud == 0 then 1 else 2 * longitud
  }

  /** The growth `agrega` writes: twice the old size. */
  function CapacidadComoEscrita(longitud: nat): (r: nat)
    ensures r == longitud + longitud
  {
    2 * longitud
  }

  /** A heap built with room for 0 elements never gets a slot: the new array
      is again of size 0, and `agrega` writes at slot 0 of it. */
  lemma {:induction false} CapacidadCeroSinLugar()
    ensures !(0 < CapacidadComoEscrita(0))
    ensures 0 < Capacidad(0)
  {
  }

  class MonticuloMinimo {
    var elementos: int
    var arbol: array<Indexable?>
    /** The elements in slots `[0, elementos)`, and the set of them. */
    ghost var contenido: seq<Indexable>
    ghost var Repr: set<Indexable>

    /** The layout without the order: the first `elementos` slots hold the
        content, each element knows its slot, the other slots are null. */
    ghost predicate Estructura()
      reads this, arbol, Repr
    {
      (forall i :: 0 <= i < |contenido| ==> contenido[i] in Repr)
      && (forall x :: x in Repr ==> x in contenido)
      && 0 <= elementos <= arbol.Length && |contenido| == elementos
      && (forall i :: 0 <= i < elementos ==> arbol[i] == contenido[i] && contenido[i].indice == i)
      && (forall i :: elementos <= i < arbol.Length ==> arbol[i] == null)
    }

    ghost predicate Valid()
      reads this, arbol, Repr
    {
      Estructura() && EsMonticulo(contenido)
    }

    /** An empty heap with room for 100 elements. */
    constructor ()
      ensures Valid() && contenido == [] && fresh(arbol) && arbol.Length == 100
    {
      arbol := new Indexable?[100](_ => null);
      elementos := 0;
      contenido, Repr := [], {};
    }

    /** The heapify constructor: an array of size `n`, every element of
        `iterable` added in turn, and then `haciaAbajo` on every slot that
        has a child, from the last of them back to the root. */
    constructor Desde(iterable: seq<Indexable>, n: int)
      requires 0 <= n
      requires forall i, j :: 0 <= i < j < |iterable| ==> iterable[i] != iterable[j]
      modifies set x | x in iterable
      ensures Valid() && fresh(arbol)
      ensures multiset(contenido) == multiset(iterable)
      ensures multiset(Claves(contenido)) == multiset(Claves(iterable))
      ensures forall x :: x in Repr <==> x in iterable
    {
      arbol := new Indexable?[n](_ => null);
      elementos := 0;
      contenido, Repr := [], {};
      new;
      AgregaTodos(iterable);
      Monticuliza();
    }

    /** The first loop of the heapify constructor: `agrega` on every
        element of `iterable`, in order. */
    method AgregaTodos(iterable: seq<Indexable>)
      requires Valid() && contenido == []
      requires forall i, j :: 0 <= i < j < |iterable| ==> iterable[i] != iterable[j]
      modifies this, arbol, set x | x in iterable
      ensures Valid() && (arbol == old(arbol) || fresh(arbol))
      ensures multiset(contenido) == multiset(iterable)
      ensures multiset(Claves(contenido)) == multiset(Claves(iterable))
      ensures forall x :: x in Repr <==> x in iterable
    {
      for i := 0 to |iterable|
        invariant Valid() && (arbol == old(arbol) || fresh(arbol))
        invariant multiset(contenido) == multiset(iterable[..i])
        invariant multiset(Claves(contenido)) == multiset(Claves(iterable[..i]))
        invariant forall x :: x in Repr <==> x in iterable[..i]
      {
        PrefijoSiguiente(iterable, i);
        Agrega(iterable[i]);
      }
      assert iterable[..|iterable|] == iterable;
    }

    /** The second loop of the heapify constructor: `haciaAbajo` on every
        slot with a child, from the last of them back to the root. */
    method Monticuliza()
      requires Valid()
      modifies this, arbol, Repr
      ensures Valid() && arbol == old(arbol) && elementos == old(elementos) && Repr == old(Repr)
      ensures multiset(contenido) == multiset(old(contenido))
      ensures multiset(Claves(contenido)) == multiset(Claves(old(contenido)))
    {
      var j := elementos / 2 - 1;
      while j >= 0
        invariant Valid() && arbol == old(arbol) && elementos == old(elementos) && Repr == old(Repr)
        invariant multiset(contenido) == multiset(old(contenido))
        invariant multiset(Claves(contenido)) == multiset(Claves(old(contenido)))
      {
        MonticuloSinPendientes(contenido, j);
        HaciaAbajo(j);
        j := j - 1;
      }
    }

    /** `intercambia(primero, segundo)`: the two slots exchange their
        elements, and each element takes the index of the slot it lands in. */
    method Intercambia(primero: int, segundo: int)
      requires Estructura() && 0 <= primero < elementos && 0 <= segundo < elementos
      modifies this, arbol, arbol[primero], arbol[segundo]
      ensures Estructura()
      ensures contenido == Intercambio(old(contenido), primero, segundo)
      ensures arbol == old(arbol) && elementos == old(elementos) && Repr == old(Repr)
    {
      var primeroInd := arbol[primero].indice;
      var segundoInd := arbol[segundo].indice;
      var elemento := arbol[primero];
      arbol[primero] := arbol[segundo];
      arbol[primero].indice := primeroInd;
      arbol[segundo] := elemento;
      arbol[segundo].indice := segundoInd;
      MiembrosIntercambio(contenido, primero, segundo);
      contenido := Intercambio(contenido, primero, segundo);
    }

    /** `haciaAbajo(k)`: the element at `k` sinks below its smaller child
        while that child has a smaller key. Afterwards at most the pair of
        `k` and its parent is out of order, and nothing is if that pair was
        in order to begin with. */
    method HaciaAbajo(k: int)
      requires Estructura() && 0 <= k && Salvo(contenido, k)
      modifies this, arbol, Repr
      ensures Estructura() && arbol == old(arbol) && elementos == old(elementos) && Repr == old(Repr)
      ensures multiset(contenido) == multiset(old(contenido))
      ensures multiset(Claves(contenido)) == multiset(Claves(old(contenido)))
      ensures ArribaPendiente(contenido, k)
      ensures AbajoPendiente(old(contenido), k) ==> EsMonticulo(contenido)
      decreases elementos - k
    {
      if k < elementos {
        var aux := k;
        var hijoIzq := 2 * k + 1;
        var hijoDer := 2 * k + 2;
        if hijoIzq < elementos && arbol[hijoIzq] != null {
          if arbol[aux].clave > arbol[hijoIzq].clave {
            aux := hijoIzq;
          }
        }
        if hijoDer < elementos && arbol[hijoDer] != null {
          if arbol[aux].clave > arbol[hijoDer].clave {
            aux := hijoDer;
          }
        }
        if aux != k {
          assert arbol[hijoIzq] == contenido[hijoIzq];
          PasoAbajo(contenido, k, aux);
          Intercambia(k, aux);
          HaciaAbajo(aux);
        }
      }
      MonticuloSinPendientes(contenido, k);
    }

    /** `haciaArriba(k)`: the element at `k` rises above its parent while
        the parent has a larger key; an empty slot does not move. Afterwards
        at most the pairs of `k` and its children are out of order, and
        nothing is if those pairs were in order to begin with. */
    method HaciaArriba(k: int)
      requires Estructura() && 0 <= k < arbol.Length && Salvo(contenido, k)
      modifies this, arbol, Repr
      ensures Estructura() && arbol == old(arbol) && elementos == old(elementos) && Repr == old(Repr)
      ensures multiset(contenido) == multiset(old(contenido))
      ensures multiset(Claves(contenido)) == multiset(Claves(old(contenido)))
      ensures AbajoPendiente(contenido, k)
      ensures ArribaPendiente(old(contenido), k) ==> EsMonticulo(contenido)
      decreases k
    {
      if k > 0 {
        var padre := (k - 1) / 2;
        if arbol[padre] != null && arbol[k] != null {
          if arbol[padre].clave > arbol[k].clave {
            PasoArriba(contenido, k);
            Intercambia(padre, k);
            HaciaArriba(padre);
          }
        }
      }
      MonticuloSinPendientes(contenido, k);
    }

    /** `reordena(elemento)`: restores heap order around the element's slot,
        first downwards and then upwards. */
    method Reordena(elemento: Indexable)
      requires Estructura() && elemento in Repr && Salvo(contenido, elemento.indice)
      modifies this, arbol, Repr
      ensures Valid() && arbol == old(arbol) && elementos == old(elementos) && Repr == old(Repr)
      ensures multiset(contenido) == multiset(old(contenido))
      ensures multiset(Claves(contenido)) == multiset(Claves(old(contenido)))
    {
      var r := elemento.indice;
      HaciaAbajo(r);
      HaciaArriba(r);
    }

    /** `agrega(elemento)`: a full array is first replaced by a larger copy;
        the element goes to the first free slot with that slot as index,
        and then rises to its place. */
    method Agrega(elemento: Indexable)
      requires Valid() && elemento !in Repr
      modifies this, arbol, Repr, elemento
      ensures Valid() && elementos == old(elementos) + 1
      ensures multiset(contenido) == multiset(old(contenido)) + multiset{elemento}
      ensures multiset(Claves(contenido)) == multiset(Claves(old(contenido))) + multiset{elemento.clave}
      ensures Repr == old(Repr) + {elemento}
      ensures old(elementos) < old(arbol.Length) ==> arbol == old(arbol)
      ensures old(elementos) == old(arbol.Length) ==> fresh(arbol) && arbol.Length == Capacidad(old(arbol.Length))
    {
      if elementos == arbol.Length {
        Crece();
      }
      arbol[elementos] := elemento;
      arbol[elementos].indice := elementos;
      SalvoAlAgregar(contenido, elemento);
      contenido, Repr := contenido + [elemento], Repr + {elemento};
      assert Claves(contenido) == Claves(old(contenido)) + [elemento.clave];
      elementos := elementos + 1;
      Reordena(arbol[elementos - 1]);
    }

    /** `agrega(elemento)` as written: a full array is replaced by one of
        `2 * arbol.length` slots. A heap built with room for 0 elements so
        gets another array of 0 slots, and the write at slot 0 throws
        ArrayIndexOutOfBoundsException; on any other heap it is `Agrega`. */
    method AgregaComoEscrito(elemento: Indexable) returns (s: Salida)
      requires Valid() && elemento !in Repr
      modifies this, arbol, Repr, elemento
      ensures Valid()
      ensures s == Lanza(FueraDeRango) <==> old(arbol.Length) == 0
      ensures s == Lanza(FueraDeRango) ==>
        (elementos == 0 && contenido == [] && fresh(arbol) && arbol.Length == 0)
      ensures s == Normal ==>
        (elementos == old(elementos) + 1 && Repr == old(Repr) + {elemento}
        && multiset(contenido) == multiset(old(contenido)) + multiset{elemento})
    {
      if elementos == arbol.Length && CapacidadComoEscrita(arbol.Length) <= elementos {
        arbol := new Indexable?[CapacidadComoEscrita(arbol.Length)](_ => null);
        return Lanza(FueraDeRango);
      }
      Agrega(elemento);
      s := Normal;
    }

    /** The growth step of `agrega`: the elements move to a fresh array of
        the next size, in the same slots. */
    method Crece()
      requires Estructura() && elementos == arbol.Length
      modifies this
      ensures Estructura() && fresh(arbol) && arbol.Length == Capacidad(old(arbol.Length))
      ensures elementos == old(elementos) && contenido == old(contenido) && Repr == old(Repr)
    {
      var arreglito := new Indexable?[Capacidad(arbol.Length)](_ => null);
      for i := 0 to arbol.Length
        modifies arreglito
        invariant forall j :: 0 <= j < i ==> arreglito[j] == arbol[j]
        invariant forall j :: i <= j < arreglito.Length ==> arreglito[j] == null
      {
        arreglito[i] := arbol[i];
      }
      arbol := arreglito;
    }

    /** The removal step shared by both `elimina`s: the element at slot `e`
        changes places with the last one, leaves the heap and gets index -1.
        Only the order around slot `e` may be broken afterwards. */
    method SacaEn(e: int)
      requires Valid() && 0 <= e < elementos
      modifies this, arbol, Repr
      ensures Estructura() && arbol == old(arbol) && Salvo(contenido, e)
      ensures var x := old(contenido[e]);
                elementos == old(elementos) - 1 && x.indice == -1
                && Repr == old(Repr) - {x}
                && multiset(contenido) == multiset(old(contenido)) - multiset{x}
                && multiset(Claves(contenido)) == multiset(Claves(old(contenido))) - multiset{x.clave}
    {
      ghost var t := Intercambio(contenido, e, elementos - 1)[..elementos - 1];
      Quitado(contenido, e);
      Intercambia(e, elementos - 1);
      QuitaUltimo();
      assert contenido == t;
    }

    /** The last element leaves the heap with index -1 and its slot
        becomes null. */
    method QuitaUltimo()
      requires Estructura() && 0 < elementos
      modifies this, arbol, contenido[elementos - 1]
      ensures Estructura() && arbol == old(arbol) && elementos == old(elementos) - 1
      ensures contenido == old(contenido[..elementos - 1])
      ensures Repr == old(Repr) - {old(contenido[elementos - 1])}
      ensures old(contenido[elementos - 1]).indice == -1
    {
      ghost var x := contenido[elementos - 1];
      ghost var t := contenido[..elementos - 1];
      assert forall i :: 0 <= i < |t| ==> t[i].indice == i;
      elementos := elementos - 1;
      arbol[elementos].indice := -1;
      arbol[elementos] := null;
      contenido, Repr := t, Repr - {x};
    }

    /** `elimina()`: throws on an empty heap; otherwise the root, which has
        the least key, leaves the heap with index -1, the last element takes
        its slot and sinks to its place. */
    method Elimina() returns (r: Resultado<Indexable>)
      requires Valid()
      modifies this, arbol, Repr
      ensures Valid() && arbol == old(arbol)
      ensures old(elementos) == 0 <==> r == Falla(EstadoIlegal)
      ensures old(elementos) == 0 ==> contenido == old(contenido) && Repr == old(Repr)
      ensures old(elementos) > 0 ==>
                r == Exito(old(contenido[0])) && elementos == old(elementos) - 1
                && r.valor.indice == -1 && Repr == old(Repr) - {r.valor}
                && multiset(contenido) == multiset(old(contenido)) - multiset{r.valor}
                && multiset(Claves(contenido)) == multiset(Claves(old(contenido))) - multiset{r.valor.clave}
                && forall x :: x in old(contenido) ==> r.valor.clave <= x.clave
    {
      if EsVacia() {
        return Falla(EstadoIlegal);
      }
      forall x | x in contenido
        ensures contenido[0].clave <= x.clave
      {
        var i :| 0 <= i < |contenido| && contenido[i] == x;
        RaizMinima(contenido, i);
      }
      var e := arbol[0];
      SacaEn(0);
      HaciaAbajo(0);
      r := Exito(e);
    }

    /** `elimina(elemento)`: nothing happens when the element's index is not
        a slot of the heap; otherwise the element in that slot (the given
        one, when it belongs to this heap) leaves with index -1, the last
        element takes its slot and moves up or down to its place. */
    method EliminaElemento(elemento: Indexable)
      requires Valid()
      modifies this, arbol, Repr
      ensures Valid() && arbol == old(arbol)
      ensures !(0 <= old(elemento.indice) < old(elementos)) ==>
                contenido == old(contenido) && Repr == old(Repr) && elementos == old(elementos)
      ensures 0 <= old(elemento.indice) < old(elementos) ==>
                var x := old(contenido[elemento.indice]);
                elementos == old(elementos) - 1 && x.indice == -1
                && (elemento in old(Repr) ==> x == elemento)
                && Repr == old(Repr) - {x}
                && multiset(contenido) == multiset(old(contenido)) - multiset{x}
                && multiset(Claves(contenido)) == multiset(Claves(old(contenido))) - multiset{x.clave}
    {
      if elemento.indice < 0 || elemento.indice >= elementos {
        return;
      }
      var e := elemento.indice;
      SacaEn(e);
      HaciaArriba(e);
      HaciaAbajo(e);
    }

    /** `contiene(elemento)`: the element's index is a slot of the heap and
        that slot holds the element. */
    function Contiene(elemento: Indexable): (r: bool)
      reads this, arbol, Repr, elemento
      requires Valid()
      ensures r <==> elemento in Repr
    {
      if elemento.indice < 0 || elemento.indice >= elementos then false
      else arbol[elemento.indice] == elemento
    }

    /** `esVacia()`. */
    function EsVacia(): (r: bool)
      reads this, arbol, Repr
      requires Valid()
      ensures r <==> contenido == []
    {
      elementos == 0
    }

    /** `get(i)`: throws outside `[0, elementos)`; otherwise the element at
        level-order position `i`. */
    function Get(i: int): (r: Resultado<Indexable?>)
      reads this, arbol, Repr
      requires Valid()
      ensures (i < 0 || i >= |contenido|) <==> r == Falla(SinElemento)
      ensures r.Exito? ==> r.valor == contenido[i]
    {
      if i < 0 || i >= elementos then Falla(SinElemento) else Exito(arbol[i])
    }

    /** `limpia()`: no elements, every slot null; the array keeps its size. */
    method Limpia()
      requires Valid()
      modifies this, arbol
      ensures Valid() && contenido == [] && elementos == 0 && arbol == old(arbol)
      ensures forall i :: 0 <= i < arbol.Length ==> arbol[i] == null
    {
      elementos := 0;
      for i := 0 to arbol.Length
        modifies arbol
        invariant forall j :: 0 <= j < i ==> arbol[j] == null
      {
        arbol[i] := null;
      }
      contenido, Repr := [], {};
    }
  }

  /** `heapSort(coleccion)`: every element of the collection goes into a
      fresh element with index -1, the heapify constructor builds a heap of
      them, and the minimum is removed until the heap is empty. The result
      is the collection sorted. */
  method HeapSort(coleccion: seq<int>) returns (lista: seq<int>)
    ensures Ordenada(lista) && multiset(lista) == multiset(coleccion)
  {
    var inicial := Adapta(coleccion);
    var mon := new MonticuloMinimo.Desde(inicial, |inicial|);
    lista := [];
    while !mon.EsVacia()
      invariant fresh(mon) && fresh(mon.arbol) && mon.Valid()
      invariant forall x :: x in mon.Repr ==> fresh(x)
      invariant multiset(lista) + multiset(Claves(mon.contenido)) == multiset(coleccion)
      invariant Ordenada(lista) && Debajo(lista, mon.contenido)
      decreases mon.elementos
    {
      ghost var antes := mon.contenido;
      var r := mon.Elimina();
      Extiende(lista, antes, mon.contenido, r.valor);
      lista := lista + [r.valor.clave];
    }
  }

  /** Every key of `lista` is at most every key in `c`. */
  ghost predicate Debajo(lista: seq<int>, c: seq<Indexable>)
  {
    forall a, j :: 0 <= a < |lista| && 0 <= j < |c| ==> lista[a] <= c[j].clave
  }

  /** The loop step of `heapSort`: appending the least key of the heap to
      the sorted prefix keeps it sorted and below what is left. */
  lemma {:induction false} Extiende(lista: seq<int>, antes: seq<Indexable>, despues: seq<Indexable>, x: Indexable)
    requires Ordenada(lista) && Debajo(lista, antes) && x in antes
    requires forall y :: y in antes ==> x.clave <= y.clave
    requires multiset(despues) == multiset(antes) - multiset{x}
    ensures Ordenada(lista + [x.clave]) && Debajo(lista + [x.clave], despues)
  {
    var i :| 0 <= i < |antes| && antes[i] == x;
    forall j | 0 <= j < |despues|
      ensures x.clave <= despues[j].clave
      ensures forall a :: 0 <= a < |lista| ==> lista[a] <= despues[j].clave
    {
      assert despues[j] in multiset(despues);
      assert despues[j] in multiset(antes);
      var k :| 0 <= k < |antes| && antes[k] == despues[j];
    }
  }

  /** The first loop of `heapSort`: one fresh element per entry of the
      collection, with that entry as key. */
  method Adapta(coleccion: seq<int>) returns (inicial: seq<Indexable>)
    ensures Claves(inicial) == coleccion
    ensures forall a, b :: 0 <= a < b < |inicial| ==> inicial[a] != inicial[b]
    ensures forall a :: 0 <= a < |inicial| ==> fresh(inicial[a])
  {
    inicial := [];
    for i := 0 to |coleccion|
      invariant Claves(inicial) == coleccion[..i]
      invariant forall a, b :: 0 <= a < b < |inicial| ==> inicial[a] != inicial[b]
      invariant forall a :: 0 <= a < |inicial| ==> fresh(inicial[a])
    {
      var ap := new Indexable(coleccion[i]);
      inicial := inicial + [ap];
    }
    assert coleccion[..|coleccion|] == coleccion;
  }
}
