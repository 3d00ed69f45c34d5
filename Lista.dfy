/** `Lista`: a generic doubly linked list of non-null elements. The nodes from
    `cabeza` to `rabo` are linked both ways through `siguiente` and
    `anterior`; `longitud` counts them. The ghost sequence `nodos` lists the
    nodes in order and `elementos` their elements. Element equality (`equals`)
    is Dafny's `==`; a `Comparator` is an integer key (see `Ordenes`). */
module Listas {
  import opened Comun
  import opened Ordenes

  /** A node of the list. Its element is only set by the constructor. */
  class Nodo<T> {
    const elemento: T
    var anterior: Nodo?<T>
    var siguiente: Nodo?<T>

    constructor (elemento: T)
      ensures this.elemento == elemento && anterior == null && siguiente == null
    {
      this.elemento := elemento;
      anterior, siguiente := null, null;
    }

    /** A node already pointing at its two neighbours. */
    constructor Entre(elemento: T, anterior: Nodo?<T>, siguiente: Nodo?<T>)
      ensures this.elemento == elemento && this.anterior == anterior && this.siguiente == siguiente
    {
      this.elemento := elemento;
      this.anterior, this.siguiente := anterior, siguiente;
    }
  }

  /** The list text of `toString`: `[a, b, c]`. */
  function Texto<T>(elementos: seq<T>, cadena: T -> string): (r: string)
    ensures |r| >= 2 && r[0] == '[' && r[|r| - 1] == ']'
  {
    "[" + Separados(elementos, cadena) + "]"
  }

  /** The element texts separated by `", "`. */
  function Separados<T>(elementos: seq<T>, cadena: T -> string): string
  {
    if elementos == [] then ""
    else if |elementos| == 1 then cadena(elementos[0])
    else Separados(elementos[..|elementos| - 1], cadena) + ", " + cadena(elementos[|elementos| - 1])
  }

  /** The sequence read backwards. */
  function Invertida<T>(s: seq<T>): (r: seq<T>)
    ensures |r| == |s|
    ensures forall i :: 0 <= i < |s| ==> r[i] == s[|s| - 1 - i]
  {
    if s == [] then [] else [s[|s| - 1]] + Invertida(s[..|s| - 1])
  }

  lemma {:induction false} InvertidaInvolutiva<T>(s: seq<T>)
    ensures Invertida(Invertida(s)) == s
  {
    assert forall i :: 0 <= i < |s| ==> Invertida(Invertida(s))[i] == s[i];
  }

  /** The index of the first occurrence of `x` in `s`, or -1. */
  function Indice<T(==)>(s: seq<T>, x: T): (r: int)
    ensures -1 <= r < |s|
    ensures r == -1 <==> x !in s
    ensures r >= 0 ==> s[r] == x && forall j :: 0 <= j < r ==> s[j] != x
  {
    if s == [] then -1
    else if s[0] == x then 0
    else
      var r := Indice(s[1..], x);
      if r == -1 then -1 else r + 1
  }

  /** `s` without its first occurrence of `x`; `s` itself when `x` does not
      occur. */
  function SinPrimera<T(==)>(s: seq<T>, x: T): (r: seq<T>)
    ensures x in s ==> multiset(r) == multiset(s) - multiset{x} && |r| == |s| - 1
    ensures x !in s ==> r == s
  {
    if x in s then
      var k := Indice(s, x);
      assert s == s[..k] + [x] + s[k + 1..];
      s[..k] + s[k + 1..]
    else s
  }

  /** The nodes are distinct and linked both ways, in order, with null at
      both ends. */
  ghost predicate Enlazados<T>(nodos: seq<Nodo<T>>)
    reads set n | n in nodos
  {
    && (forall i {:trigger nodos[i].siguiente} :: 0 <= i < |nodos| - 1 ==> nodos[i].siguiente == nodos[i + 1])
    && (forall i {:trigger nodos[i].anterior} :: 0 < i < |nodos| ==> nodos[i].anterior == nodos[i - 1])
    && (nodos != [] ==> nodos[0].anterior == null && nodos[|nodos| - 1].siguiente == null)
    && Distintos(nodos)
  }

  /** No element appears twice. The pairs are only looked at on request,
      through `Diferentes` and the lemma `DistintosEn`. */
  ghost predicate Distintos<T>(s: seq<T>)
  {
    forall i, j {:trigger Diferentes(s, i, j)} :: Diferentes(s, i, j)
  }

  ghost predicate Diferentes<T>(s: seq<T>, i: int, j: int)
  {
    0 <= i < j < |s| ==> s[i] != s[j]
  }

  /** Two different positions of a sequence of distinct elements hold
      different elements. */
  lemma {:induction false} DistintosEn<T>(s: seq<T>, i: int, j: int)
    requires Distintos(s) && 0 <= i < |s| && 0 <= j < |s| && i != j
    ensures s[i] != s[j]
  {
    if i < j {
      assert Diferentes(s, i, j);
    } else {
      assert Diferentes(s, j, i);
    }
  }

  /** Inserting a new element keeps the elements distinct. */
  lemma {:induction false} DistintosInserta<T>(s: seq<T>, i: int, x: T)
    requires Distintos(s) && 0 <= i <= |s| && x !in s
    ensures Distintos(s[..i] + [x] + s[i..])
  {
    var w := s[..i] + [x] + s[i..];
    forall j, k
      ensures Diferentes(w, j, k)
    {
      if 0 <= j < k < |w| && j != i && k != i {
        var j', k' := if j < i then j else j - 1, if k < i then k else k - 1;
        assert w[j] == s[j'] && w[k] == s[k'];
        assert Diferentes(s, j', k');
      } else if !(0 <= j < k < |w|) {
      } else if j == i {
        assert w[k] == s[k - 1];
      } else {
        assert w[j] == s[j];
      }
    }
  }

  /** The set of a sequence after inserting one element. */
  lemma {:induction false} ConjuntoInserta<T>(s: seq<T>, i: int, x: T)
    requires 0 <= i <= |s|
    ensures (set y | y in s[..i] + [x] + s[i..]) == (set y | y in s) + {x}
  {
    assert s == s[..i] + s[i..];
  }

  /** The set of a sequence of distinct elements after removing one. */
  lemma {:induction false} ConjuntoQuita<T>(s: seq<T>, k: int, w: seq<T>)
    requires Distintos(s) && 0 <= k < |s| && w == s[..k] + s[k + 1..]
    ensures (set y | y in w) == (set y | y in s) - {s[k]}
  {
    assert s == s[..k] + [s[k]] + s[k + 1..];
    forall j | 0 <= j < |w|
      ensures w[j] != s[k]
    {
      if j < k {
        assert w[j] == s[j];
        DistintosEn(s, j, k);
      } else {
        assert w[j] == s[j + 1];
        DistintosEn(s, j + 1, k);
      }
    }
  }

  /** The chain `viejos` with a new node `n` linked between the nodes at
      `i - 1` and `i`, every other link as before, is linked. */
  lemma {:induction false} EnlazadosInserta<T>(viejos: seq<Nodo<T>>, i: int, n: Nodo<T>)
    requires 0 < i < |viejos| && Distintos(viejos) && n !in viejos
    requires forall j {:trigger viejos[j].siguiente} :: 0 <= j < |viejos| - 1 && j != i - 1 ==> viejos[j].siguiente == viejos[j + 1]
    requires forall j {:trigger viejos[j].anterior} :: 0 < j < |viejos| && j != i ==> viejos[j].anterior == viejos[j - 1]
    requires viejos[0].anterior == null && viejos[|viejos| - 1].siguiente == null
    requires viejos[i - 1].siguiente == n && viejos[i].anterior == n
    requires n.anterior == viejos[i - 1] && n.siguiente == viejos[i]
    ensures Enlazados(viejos[..i] + [n] + viejos[i..])
  {
    var nodos := viejos[..i] + [n] + viejos[i..];
    assert forall j :: 0 <= j < i ==> nodos[j] == viejos[j];
    assert forall j :: i < j < |nodos| ==> nodos[j] == viejos[j - 1];
    DistintosInserta(viejos, i, n);
  }

  /** The chain `viejos` with the nodes at `k - 1` and `k + 1` linked to
      each other, every other link as before, is linked without the node at
      `k`. */
  lemma {:induction false} EnlazadosQuita<T>(viejos: seq<Nodo<T>>, k: int)
    requires 0 < k < |viejos| - 1 && Distintos(viejos)
    requires forall i {:trigger viejos[i].siguiente} :: 0 <= i < |viejos| - 1 && i != k - 1 && i != k ==> viejos[i].siguiente == viejos[i + 1]
    requires forall i {:trigger viejos[i].anterior} :: 0 < i < |viejos| && i != k + 1 && i != k ==> viejos[i].anterior == viejos[i - 1]
    requires viejos[0].anterior == null && viejos[|viejos| - 1].siguiente == null
    requires viejos[k - 1].siguiente == viejos[k + 1] && viejos[k + 1].anterior == viejos[k - 1]
    ensures Enlazados(viejos[..k] + viejos[k + 1..])
  {
    var nodos := viejos[..k] + viejos[k + 1..];
    assert forall i :: 0 <= i < |nodos| ==> nodos[i] == (if i < k then viejos[i] else viejos[i + 1]);
    DistintosQuita(viejos, k);
  }

  /** The two pointer updates of `inserta`: the new node `n`, already
      pointing at `a` and `m`, becomes the successor of `a` and the
      predecessor of `m`. */
  method Conecta<T>(a: Nodo<T>, m: Nodo<T>, n: Nodo<T>, ghost viejos: seq<Nodo<T>>, ghost i: int)
    requires 0 < i < |viejos| && a == viejos[i - 1] && m == viejos[i]
    requires Enlazados(viejos) && n !in viejos && n.anterior == a && n.siguiente == m
    modifies a, m
    ensures Enlazados(viejos[..i] + [n] + viejos[i..])
  {
    DistintosEn(viejos, i - 1, i);
    a.siguiente, m.anterior := n, n;
    forall j {:trigger viejos[j].siguiente} | 0 <= j < |viejos| - 1 && j != i - 1
      ensures viejos[j].siguiente == viejos[j + 1]
    {
      DistintosEn(viejos, j, i - 1);
    }
    forall j {:trigger viejos[j].anterior} | 0 < j < |viejos| && j != i
      ensures viejos[j].anterior == viejos[j - 1]
    {
      DistintosEn(viejos, j, i);
    }
    DistintosEn(viejos, 0, i);
    DistintosEn(viejos, |viejos| - 1, i - 1);
    EnlazadosInserta(viejos, i, n);
  }

  /** The two pointer updates of `elimina` for the node at `k`, strictly
      inside the chain: its neighbours `a` and `n` point at each other. */
  method Salta<T>(a: Nodo<T>, n: Nodo<T>, ghost viejos: seq<Nodo<T>>, ghost k: int)
    requires 0 < k < |viejos| - 1 && a == viejos[k - 1] && n == viejos[k + 1] && Enlazados(viejos)
    modifies a, n
    ensures Enlazados(viejos[..k] + viejos[k + 1..])
  {
    DistintosEn(viejos, k - 1, k + 1);
    a.siguiente, n.anterior := n, a;
    forall i {:trigger viejos[i].siguiente} | 0 <= i < |viejos| - 1 && i != k - 1 && i != k
      ensures viejos[i].siguiente == viejos[i + 1]
    {
      DistintosEn(viejos, i, k - 1);
    }
    forall i {:trigger viejos[i].anterior} | 0 < i < |viejos| && i != k + 1 && i != k
      ensures viejos[i].anterior == viejos[i - 1]
    {
      DistintosEn(viejos, i, k + 1);
    }
    DistintosEn(viejos, 0, k + 1);
    DistintosEn(viejos, |viejos| - 1, k - 1);
    EnlazadosQuita(viejos, k);
  }

  /** Where each element of `s` lands after inserting `x` at `i`. */
  lemma {:induction false} Insercion<T>(s: seq<T>, i: int, x: T)
    requires 0 <= i <= |s|
    ensures |s[..i] + [x] + s[i..]| == |s| + 1 && (s[..i] + [x] + s[i..])[i] == x
    ensures forall j :: 0 <= j < i ==> (s[..i] + [x] + s[i..])[j] == s[j]
    ensures forall j :: i < j <= |s| ==> (s[..i] + [x] + s[i..])[j] == s[j - 1]
  {
  }

  /** Where each element of `s` lands after removing the one at `k`. */
  lemma {:induction false} Remocion<T>(s: seq<T>, k: int, w: seq<T>)
    requires 0 <= k < |s| && w == s[..k] + s[k + 1..]
    ensures |w| == |s| - 1
    ensures forall j :: 0 <= j < k ==> w[j] == s[j]
    ensures forall j :: k <= j < |w| ==> w[j] == s[j + 1]
  {
  }

  /** Dropping either end of a sequence of distinct elements leaves distinct
      elements, none equal to the one dropped. */
  lemma {:induction false} DistintosExtremos<T>(s: seq<T>)
    requires Distintos(s) && s != []
    ensures Distintos(s[1..]) && s[0] !in s[1..]
    ensures Distintos(s[..|s| - 1]) && s[|s| - 1] !in s[..|s| - 1]
  {
    DistintosQuita(s, 0);
    assert s[..0] + s[1..] == s[1..];
    DistintosQuita(s, |s| - 1);
    assert s[..|s| - 1] + s[|s|..] == s[..|s| - 1];
    if s[0] in s[1..] {
      var j :| 0 <= j < |s| - 1 && s[1..][j] == s[0];
      DistintosEn(s, j + 1, 0);
    }
    if s[|s| - 1] in s[..|s| - 1] {
      var j :| 0 <= j < |s| - 1 && s[..|s| - 1][j] == s[|s| - 1];
      DistintosEn(s, j, |s| - 1);
    }
  }

  /** A new element at either end keeps the elements distinct. */
  lemma {:induction false} DistintosAgrega<T>(s: seq<T>, x: T)
    requires Distintos(s) && x !in s
    ensures Distintos(s + [x]) && Distintos([x] + s)
  {
    DistintosInserta(s, |s|, x);
    assert s[..|s|] + [x] + s[|s|..] == s + [x];
    DistintosInserta(s, 0, x);
    assert s[..0] + [x] + s[0..] == [x] + s;
  }

  /** Removing an element keeps the others distinct. */
  lemma {:induction false} DistintosQuita<T>(s: seq<T>, i: int)
    requires Distintos(s) && 0 <= i < |s|
    ensures Distintos(s[..i] + s[i + 1..])
  {
    var w := s[..i] + s[i + 1..];
    forall j, k
      ensures Diferentes(w, j, k)
    {
      if 0 <= j < k < |w| {
        var j', k' := if j < i then j else j + 1, if k < i then k else k + 1;
        assert w[j] == s[j'] && w[k] == s[k'];
        assert Diferentes(s, j', k');
      }
    }
  }

  class Lista<T(==)> {
    var cabeza: Nodo?<T>
    var rabo: Nodo?<T>
    var longitud: int
    ghost var nodos: seq<Nodo<T>>
    ghost var elementos: seq<T>
    ghost var Repr: set<Nodo<T>>

    ghost predicate Valid()
      reads this, Repr
    {
      && Repr == (set n | n in nodos)
      && longitud == |nodos| == |elementos|
      && (nodos == [] ==> cabeza == null && rabo == null)
      && (nodos != [] ==> cabeza == nodos[0] && rabo == nodos[|nodos| - 1])
      && (forall i {:trigger nodos[i].elemento} :: 0 <= i < |nodos| ==> nodos[i].elemento == elementos[i])
      && Enlazados(nodos)
    }

    constructor ()
      ensures Valid() && elementos == [] && Repr == {}
    {
      cabeza, rabo, longitud := null, null, 0;
      nodos, elementos, Repr := [], [], {};
    }

    /** `esVacia()`. */
    function EsVacia(): (r: bool)
      reads this, Repr
      requires Valid()
      ensures r <==> elementos == []
    {
      longitud == 0
    }

    /** `agregaFinal(elemento)`: throws on null; otherwise the element is
        appended. `agrega` is the same operation. */
    method AgregaFinal(elemento: Option<T>) returns (s: Salida)
      requires Valid()
      modifies this, Repr
      ensures Valid() && fresh(Repr - old(Repr))
      ensures elemento.None? ==> s == Lanza(ArgumentoIlegal) && unchanged(this)
      ensures elemento.Some? ==> s == Normal && elementos == old(elementos) + [elemento.valor]
    {
      if elemento.None? {
        return Lanza(ArgumentoIlegal);
      }
      var n := new Nodo.Entre(elemento.valor, rabo, null);
      ghost var viejos := nodos;
      if longitud == 0 {
        cabeza, rabo := n, n;
      } else {
        rabo.siguiente := n;
        rabo := n;
      }
      longitud := longitud + 1;
      nodos, elementos, Repr := nodos + [n], elementos + [elemento.valor], Repr + {n};
      assert Valid() by {
        DistintosAgrega(viejos, n);
        assert forall j :: 0 <= j < |viejos| ==> nodos[j] == viejos[j];
        forall j | 0 <= j < |viejos| - 1
          ensures viejos[j] != nodos[|viejos| - 1]
        {
          DistintosEn(viejos, j, |viejos| - 1);
        }
      }
      s := Normal;
    }

    /** `agregaInicio(elemento)`: throws on null; otherwise the element is
        prepended. */
    method AgregaInicio(elemento: Option<T>) returns (s: Salida)
      requires Valid()
      modifies this, Repr
      ensures Valid() && fresh(Repr - old(Repr))
      ensures elemento.None? ==> s == Lanza(ArgumentoIlegal) && unchanged(this)
      ensures elemento.Some? ==> s == Normal && elementos == [elemento.valor] + old(elementos)
    {
      if elemento.None? {
        return Lanza(ArgumentoIlegal);
      }
      var n := new Nodo(elemento.valor);
      if longitud == 0 {
        cabeza, rabo := n, n;
      } else {
        var c := cabeza;
        c.anterior := n;
        n.siguiente := c;
        cabeza := n;
      }
      longitud := longitud + 1;
      DistintosAgrega(nodos, n);
      ghost var viejos := nodos;
      nodos, elementos, Repr := [n] + nodos, [elemento.valor] + elementos, Repr + {n};
      assert Valid() by {
        assert forall j :: 0 < j < |nodos| ==> nodos[j] == viejos[j - 1];
        forall j | 1 <= j < |viejos|
          ensures viejos[j] != viejos[0]
        {
          DistintosEn(viejos, j, 0);
        }
      }
      s := Normal;
    }

    /** `inserta(i, elemento)`: throws on null; an index `<= 0` prepends, one
        `>= longitud` appends, and otherwise the element ends at index `i`. */
    method Inserta(i: int, elemento: Option<T>) returns (s: Salida)
      requires Valid()
      modifies this, Repr
      ensures Valid() && fresh(Repr - old(Repr))
      ensures elemento.None? ==> s == Lanza(ArgumentoIlegal) && unchanged(this)
      ensures elemento.Some? ==> s == Normal
      ensures elemento.Some? && i <= 0 ==> elementos == [elemento.valor] + old(elementos)
      ensures elemento.Some? && i > 0 && i >= old(|elementos|) ==>
                elementos == old(elementos) + [elemento.valor]
      ensures elemento.Some? && 0 < i < old(|elementos|) ==>
                elementos == old(elementos[..i]) + [elemento.valor] + old(elementos[i..])
    {
      if elemento.None? {
        return Lanza(ArgumentoIlegal);
      }
      if i <= 0 {
        s := AgregaInicio(elemento);
        return;
      }
      if i >= longitud {
        s := AgregaFinal(elemento);
        return;
      }
      var j := 0;
      var m := cabeza;
      while j < i
        invariant 0 <= j <= i
        invariant m == nodos[j]
      {
        m := m.siguiente;
        j := j + 1;
      }
      Enlaza(m, elemento.valor, i);
      s := Normal;
    }

    /** The splice of `inserta`: a new node holding `x` is linked right
        before `m`, a node strictly after the head, so it takes index `i`. */
    method Enlaza(m: Nodo<T>, x: T, ghost i: int)
      requires Valid() && 0 < i < |nodos| && m == nodos[i]
      modifies this, Repr
      ensures Valid() && fresh(Repr - old(Repr)) && old(Repr) <= Repr
      ensures elementos == old(elementos[..i]) + [x] + old(elementos[i..])
    {
      assert m.anterior == nodos[i - 1];
      var a := m.anterior;
      var n := new Nodo.Entre(x, a, m);
      assert n !in nodos;
      ghost var viejos := nodos;
      Conecta(a, m, n, viejos, i);
      longitud, nodos, elementos, Repr := longitud + 1, nodos[..i] + [n] + nodos[i..], elementos[..i] + [x] + elementos[i..], Repr + {n};
      assert Repr == (set o | o in nodos) by {
        ConjuntoInserta(viejos, i, n);
      }
      forall j | 0 <= j < |nodos|
        ensures nodos[j].elemento == elementos[j]
      {
        Insercion(viejos, i, n);
        Insercion(old(elementos), i, x);
        if j < i {
          assert nodos[j] == viejos[j] && elementos[j] == old(elementos)[j];
        } else if j > i {
          assert nodos[j] == viejos[j - 1] && elementos[j] == old(elementos)[j - 1];
        }
      }
    }

    /** `buscaElemento(elemento)`: the first node holding the element, or
        null. */
    method BuscaElemento(elemento: T) returns (m: Nodo?<T>)
      requires Valid()
      ensures m == null <==> elemento !in elementos
      ensures m != null ==> m == nodos[Indice(elementos, elemento)]
    {
      m := cabeza;
      ghost var k := 0;
      while m != null
        invariant 0 <= k <= |nodos|
        invariant m == (if k < |nodos| then nodos[k] else null)
        invariant forall j :: 0 <= j < k ==> elementos[j] != elemento
        decreases |nodos| - k
      {
        if elemento == m.elemento {
          return;
        }
        m := m.siguiente;
        k := k + 1;
      }
    }

    /** `elimina(elemento)`: removes the first equal element; null or an
        absent element leaves the list unchanged. */
    method Elimina(elemento: Option<T>)
      requires Valid()
      modifies this, Repr
      ensures Valid() && Repr <= old(Repr)
      ensures elemento.None? ==> unchanged(this)
      ensures elemento.Some? ==> elementos == SinPrimera(old(elementos), elemento.valor)
    {
      if elemento.None? {
        return;
      }
      var e := BuscaElemento(elemento.valor);
      if e == null {
        return;
      }
      ghost var k := Indice(elementos, elemento.valor);
      if longitud == 1 {
        Limpia();
        return;
      }
      if e == cabeza {
        var _ := EliminaPrimero();
        return;
      }
      if e == rabo {
        var _ := EliminaUltimo();
        return;
      }
      Desliga(e, k);
    }

    /** The splice of `elimina` for a node strictly inside the list: its
        neighbours are linked to each other. */
    method Desliga(e: Nodo<T>, ghost k: int)
      requires Valid() && 0 < k < |nodos| - 1 && e == nodos[k]
      modifies this, Repr
      ensures Valid() && Repr == old(Repr) - {e}
      ensures nodos == old(nodos[..k] + nodos[k + 1..])
      ensures elementos == old(elementos[..k] + elementos[k + 1..])
    {
      assert e.anterior == nodos[k - 1] && e.siguiente == nodos[k + 1];
      var a, n := e.anterior, e.siguiente;
      ghost var viejos := nodos;
      Salta(a, n, viejos, k);
      longitud, nodos, elementos, Repr := longitud - 1, nodos[..k] + nodos[k + 1..], elementos[..k] + elementos[k + 1..], Repr - {e};
      assert Repr == (set o | o in nodos) by {
        ConjuntoQuita(viejos, k, nodos);
      }
      forall i | 0 <= i < |nodos|
        ensures nodos[i].elemento == elementos[i]
      {
        Remocion(viejos, k, nodos);
        Remocion(old(elementos), k, elementos);
        if i < k {
          assert nodos[i] == viejos[i] && elementos[i] == old(elementos)[i];
        } else {
          assert nodos[i] == viejos[i + 1] && elementos[i] == old(elementos)[i + 1];
        }
      }
    }

    /** `eliminaPrimero()`: throws on an empty list; otherwise removes and
        returns the first element. */
    method EliminaPrimero() returns (r: Resultado<T>)
      requires Valid()
      modifies this, Repr
      ensures Valid() && Repr <= old(Repr)
      ensures old(elementos) == [] ==> r == Falla(SinElemento) && unchanged(this)
      ensures old(elementos) != [] ==> r == Exito(old(elementos[0])) && elementos == old(elementos[1..])
    {
      if rabo == null {
        return Falla(SinElemento);
      }
      r := Exito(cabeza.elemento);
      if longitud == 1 {
        cabeza, rabo := null, null;
      } else {
        assert cabeza.siguiente == nodos[1];
        forall j | 1 < j < |nodos|
          ensures nodos[j] != nodos[1]
        {
          DistintosEn(nodos, j, 1);
        }
        cabeza := cabeza.siguiente;
        cabeza.anterior := null;
      }
      DistintosExtremos(nodos);
      longitud := longitud - 1;
      Repr := Repr - {nodos[0]};
      nodos, elementos := nodos[1..], elementos[1..];
    }

    /** `eliminaUltimo()`: throws on an empty list; otherwise removes and
        returns the last element. */
    method EliminaUltimo() returns (r: Resultado<T>)
      requires Valid()
      modifies this, Repr
      ensures Valid() && Repr <= old(Repr)
      ensures old(elementos) == [] ==> r == Falla(SinElemento) && unchanged(this)
      ensures old(elementos) != [] ==>
                r == Exito(old(elementos[|elementos| - 1])) && elementos == old(elementos[..|elementos| - 1])
    {
      if rabo == null {
        return Falla(SinElemento);
      }
      r := Exito(rabo.elemento);
      if longitud == 1 {
        cabeza, rabo := null, null;
      } else {
        assert rabo.anterior == nodos[|nodos| - 2];
        forall j | 0 <= j < |nodos| - 2
          ensures nodos[j] != nodos[|nodos| - 2]
        {
          DistintosEn(nodos, j, |nodos| - 2);
        }
        rabo := rabo.anterior;
        rabo.siguiente := null;
      }
      DistintosExtremos(nodos);
      longitud := longitud - 1;
      Repr := Repr - {nodos[|nodos| - 1]};
      nodos, elementos := nodos[..|nodos| - 1], elementos[..|elementos| - 1];
    }

    /** `contiene(elemento)`. */
    method Contiene(elemento: T) returns (b: bool)
      requires Valid()
      ensures b <==> elemento in elementos
    {
      var m := BuscaElemento(elemento);
      b := m != null;
    }

    /** `reversa()`: a new list with the elements in reverse order. */
    method Reversa() returns (lista: Lista<T>)
      requires Valid()
      ensures fresh(lista) && fresh(lista.Repr) && lista.Valid()
      ensures lista.elementos == Invertida(elementos)
    {
      lista := new Lista<T>();
      var m := cabeza;
      ghost var k := 0;
      while m != null
        invariant 0 <= k <= |nodos|
        invariant m == (if k < |nodos| then nodos[k] else null)
        invariant fresh(lista) && fresh(lista.Repr) && lista.Valid()
        invariant lista.elementos == Invertida(elementos[..k])
        decreases |nodos| - k
      {
        var _ := lista.AgregaInicio(Some(m.elemento));
        assert elementos[..k + 1][..k] == elementos[..k];
        m := m.siguiente;
        k := k + 1;
      }
      assert elementos[..k] == elementos;
    }

    /** `copia()`: a new list with the same elements in the same order. */
    method Copia() returns (lista: Lista<T>)
      requires Valid()
      ensures fresh(lista) && fresh(lista.Repr) && lista.Valid()
      ensures lista.elementos == elementos
    {
      lista := new Lista<T>();
      var m := cabeza;
      ghost var k := 0;
      while m != null
        invariant 0 <= k <= |nodos|
        invariant m == (if k < |nodos| then nodos[k] else null)
        invariant fresh(lista) && fresh(lista.Repr) && lista.Valid()
        invariant lista.elementos == elementos[..k]
        decreases |nodos| - k
      {
        var _ := lista.AgregaFinal(Some(m.elemento));
        assert elementos[..k + 1] == elementos[..k] + [elementos[k]];
        m := m.siguiente;
        k := k + 1;
      }
      assert elementos[..k] == elementos;
    }

    /** `limpia()`: empties the list. */
    method Limpia()
      requires Valid()
      modifies this
      ensures Valid() && elementos == [] && Repr == {}
    {
      cabeza, rabo, longitud := null, null, 0;
      nodos, elementos, Repr := [], [], {};
    }

    /** `getPrimero()`: the first element; throws on an empty list. */
    function GetPrimero(): (r: Resultado<T>)
      reads this, Repr
      requires Valid()
      ensures r.Falla? <==> elementos == []
      ensures r.Falla? ==> r.excepcion == SinElemento
      ensures r.Exito? ==> r.valor == elementos[0]
    {
      if rabo == null then Falla(SinElemento) else Exito(cabeza.elemento)
    }

    /** `getUltimo()`: the last element; throws on an empty list. */
    function GetUltimo(): (r: Resultado<T>)
      reads this, Repr
      requires Valid()
      ensures r.Falla? <==> elementos == []
      ensures r.Falla? ==> r.excepcion == SinElemento
      ensures r.Exito? ==> r.valor == elementos[|elementos| - 1]
    {
      if longitud == 0 then Falla(SinElemento) else Exito(rabo.elemento)
    }

    /** `get(i)`: the `i`-th element; throws `ExcepcionIndiceInvalido`
        outside `[0, longitud)`. */
    method Get(i: int) returns (r: Resultado<T>)
      requires Valid()
      ensures r.Falla? <==> i < 0 || i >= |elementos|
      ensures r.Falla? ==> r.excepcion == IndiceInvalido
      ensures r.Exito? ==> r.valor == elementos[i]
    {
      if i < 0 || i >= longitud {
        return Falla(IndiceInvalido);
      }
      var j := 0;
      var m := cabeza;
      while j < i
        invariant 0 <= j <= i
        invariant m == nodos[j]
      {
        m := m.siguiente;
        j := j + 1;
      }
      r := Exito(m.elemento);
    }

    /** `indiceDe(elemento)`: the index of the first equal element, or -1.
        The list holds no null, so a null argument equals no element. */
    method IndiceDe(elemento: Option<T>) returns (r: int)
      requires Valid()
      ensures elemento.None? ==> r == -1
      ensures elemento.Some? ==> (r == -1 <==> elemento.valor !in elementos)
      ensures r != -1 ==> elemento.Some? && 0 <= r < |elementos| && elementos[r] == elemento.valor
      ensures r != -1 ==> forall j :: 0 <= j < r ==> elementos[j] != elemento.valor
    {
      if elemento.None? {
        return -1;
      }
      var j := 0;
      var m := cabeza;
      while m != null
        invariant 0 <= j <= |nodos|
        invariant m == (if j < |nodos| then nodos[j] else null)
        invariant elemento.valor !in elementos[..j]
        decreases |nodos| - j
      {
        if m.elemento == elemento.valor {
          return j;
        }
        assert elementos[..j + 1] == elementos[..j] + [elementos[j]];
        m := m.siguiente;
        j := j + 1;
      }
      assert elementos[..j] == elementos;
      r := -1;
    }

    /** `toString()`: `[` the element texts separated by `", "` `]`. */
    method ToString(cadena: T -> string) returns (s: string)
      requires Valid()
      ensures s == Texto(elementos, cadena)
    {
      var m := cabeza;
      var n := "[";
      ghost var k := 0;
      while m != null
        invariant 0 <= k <= |nodos|
        invariant m == (if k < |nodos| then nodos[k] else null)
        invariant n == "[" + Separados(elementos[..k], cadena) + (if 0 < k < |nodos| then ", " else "")
        decreases |nodos| - k
      {
        assert elementos[..k + 1][..k] == elementos[..k];
        n := n + cadena(m.elemento);
        m := m.siguiente;
        k := k + 1;
        if m != null {
          n := n + ", ";
        }
      }
      assert elementos[..k] == elementos;
      s := n + "]";
    }

    /** `equals(lista)`: same length and equal elements position by
        position. */
    method Equals(lista: Lista<T>) returns (b: bool)
      requires Valid() && lista.Valid()
      ensures b <==> elementos == lista.elementos
    {
      var m1, m2 := cabeza, lista.cabeza;
      if longitud == 0 && lista.longitud == 0 {
        return true;
      }
      if lista.longitud == 0 && longitud != 0 {
        return false;
      }
      if lista.longitud != 0 && longitud == 0 {
        return false;
      }
      if lista.longitud != longitud {
        return false;
      }
      ghost var k := 0;
      while m1 != null && m2 != null
        invariant 0 <= k <= |nodos|
        invariant m1 == (if k < |nodos| then nodos[k] else null)
        invariant m2 == (if k < |lista.nodos| then lista.nodos[k] else null)
        invariant elementos[..k] == lista.elementos[..k]
        decreases |nodos| - k
      {
        if m1.elemento != m2.elemento {
          assert elementos[k] != lista.elementos[k];
          return false;
        }
        assert elementos[..k + 1] == elementos[..k] + [elementos[k]];
        assert lista.elementos[..k + 1] == lista.elementos[..k] + [lista.elementos[k]];
        m1, m2 := m1.siguiente, m2.siguiente;
        k := k + 1;
      }
      assert elementos[..k] == elementos && lista.elementos[..k] == lista.elementos;
      b := true;
    }

    /** `mezcla(c, lista1, lista2)`: a new list merging the two, taking from
        `lista1` on ties. */
    static method Mezcla(clave: T -> int, lista1: Lista<T>, lista2: Lista<T>) returns (n: Lista<T>)
      requires lista1.Valid() && lista2.Valid()
      ensures fresh(n) && fresh(n.Repr) && n.Valid()
      ensures n.elementos == Ordenes.Mezcla(lista1.elementos, lista2.elementos, clave)
    {
      n := new Lista<T>();
      ghost var a, b := lista1.elementos, lista2.elementos;
      var l1, l2, i, j := MezclaCabezas(n, clave, lista1, lista2);
      Agotada(a, b, i, j, clave);
      var l := if l2 == null then l1 else l2;
      ghost var lista, k := if l2 == null then lista1 else lista2, if l2 == null then i else j;
      AgregaResto(n, l, lista, k);
    }

    /** The first loop of `mezcla`: while both lists have nodes left, the
        node whose element does not compare greater (the left one on ties)
        is appended to `n`. Returns where each walk stopped. */
    static method MezclaCabezas(n: Lista<T>, clave: T -> int, lista1: Lista<T>, lista2: Lista<T>)
      returns (l1: Nodo?<T>, l2: Nodo?<T>, ghost i: int, ghost j: int)
      requires n.Valid() && lista1.Valid() && lista2.Valid() && n.elementos == []
      requires n != lista1 && n != lista2 && n.Repr !! lista1.Repr && n.Repr !! lista2.Repr
      modifies n, n.Repr
      ensures n.Valid() && fresh(n.Repr - old(n.Repr))
      ensures n.Repr !! lista1.Repr && n.Repr !! lista2.Repr
      ensures 0 <= i <= |lista1.nodos| && 0 <= j <= |lista2.nodos|
      ensures l1 == (if i < |lista1.nodos| then lista1.nodos[i] else null)
      ensures l2 == (if j < |lista2.nodos| then lista2.nodos[j] else null)
      ensures l1 == null || l2 == null
      ensures n.elementos + Ordenes.Mezcla(lista1.elementos[i..], lista2.elementos[j..], clave)
              == Ordenes.Mezcla(lista1.elementos, lista2.elementos, clave)
    {
      l1, l2 := lista1.cabeza, lista2.cabeza;
      ghost var a, b := lista1.elementos, lista2.elementos;
      i, j := 0, 0;
      while l1 != null && l2 != null
        invariant 0 <= i <= |a| && 0 <= j <= |b|
        invariant l1 == (if i < |a| then lista1.nodos[i] else null)
        invariant l2 == (if j < |b| then lista2.nodos[j] else null)
        invariant n.Valid() && fresh(n.Repr - old(n.Repr))
        invariant n.Repr !! lista1.Repr && n.Repr !! lista2.Repr
        invariant n.elementos + Ordenes.Mezcla(a[i..], b[j..], clave) == Ordenes.Mezcla(a, b, clave)
        decreases |a| + |b| - i - j
      {
        Paso(n.elementos, a, b, i, j, clave);
        var izquierda := clave(l1.elemento) <= clave(l2.elemento);
        var _ := n.AgregaFinal(Some(if izquierda then l1.elemento else l2.elemento));
        if izquierda {
          l1 := l1.siguiente;
          i := i + 1;
        } else {
          l2 := l2.siguiente;
          j := j + 1;
        }
      }
    }

    /** The last two loops of `mezcla`: once one list is exhausted, the nodes
        of the other from `l` on are appended to `n`. */
    static method AgregaResto(n: Lista<T>, l: Nodo?<T>, ghost lista: Lista<T>, ghost i: int)
      requires n.Valid() && lista.Valid() && n != lista
      requires n.Repr !! lista.Repr
      requires 0 <= i <= |lista.nodos| && l == (if i < |lista.nodos| then lista.nodos[i] else null)
      modifies n, n.Repr
      ensures n.Valid() && fresh(n.Repr - old(n.Repr))
      ensures n.elementos == old(n.elementos) + lista.elementos[i..]
    {
      var m := l;
      ghost var k := i;
      while m != null
        invariant i <= k <= |lista.nodos| && m == (if k < |lista.nodos| then lista.nodos[k] else null)
        invariant n.Valid() && fresh(n.Repr - old(n.Repr)) && n.Repr !! lista.Repr
        invariant n.elementos == old(n.elementos) + lista.elementos[i..k]
        decreases |lista.nodos| - k
      {
        assert lista.elementos[i..k + 1] == lista.elementos[i..k] + [m.elemento];
        var _ := n.AgregaFinal(Some(m.elemento));
        m := m.siguiente;
        k := k + 1;
      }
    }

    /** Once one side is used up, the rest of the merge is the other side. */
    static lemma Agotada(a: seq<T>, b: seq<T>, i: int, j: int, clave: T -> int)
      requires 0 <= i <= |a| && 0 <= j <= |b| && (i == |a| || j == |b|)
      ensures Ordenes.Mezcla(a[i..], b[j..], clave) == if j == |b| then a[i..] else b[j..]
    {
      if j == |b| {
        assert b[j..] == [];
      } else {
        assert a[i..] == [];
      }
    }

    /** The invariant of `mezcla`'s loops survives taking the next element. */
    static lemma Paso(hechos: seq<T>, a: seq<T>, b: seq<T>, i: int, j: int, clave: T -> int)
      requires 0 <= i <= |a| && 0 <= j <= |b| && (i < |a| || j < |b|)
      ensures i < |a| && (j == |b| || clave(a[i]) <= clave(b[j])) ==>
                hechos + Ordenes.Mezcla(a[i..], b[j..], clave)
                == (hechos + [a[i]]) + Ordenes.Mezcla(a[i + 1..], b[j..], clave)
      ensures j < |b| && (i == |a| || clave(b[j]) < clave(a[i])) ==>
                hechos + Ordenes.Mezcla(a[i..], b[j..], clave)
                == (hechos + [b[j]]) + Ordenes.Mezcla(a[i..], b[j + 1..], clave)
    {
      Ordenes.MezclaPaso(a[i..], b[j..], clave);
      if i < |a| {
        assert a[i..][1..] == a[i + 1..];
      }
      if j < |b| {
        assert b[j..][1..] == b[j + 1..];
      }
    }

    /** `mergeSort(comparador)`: a sorted copy; the list itself is not
        modified. */
    method MergeSort(clave: T -> int) returns (r: Lista<T>)
      requires Valid()
      ensures fresh(r) && fresh(r.Repr) && r.Valid()
      ensures r.elementos == OrdenaMezcla(elementos, clave)
    {
      var c := Copia();
      r := OrdenaLista(c, clave);
    }

    /** The private `mergeSort(lista, comparador)`: moves the first
        `n - n/2` elements of `lista` to a new list, copies the rest, sorts
        both and merges them. It consumes `lista`. */
    static method OrdenaLista(lista: Lista<T>, clave: T -> int) returns (r: Lista<T>)
      requires lista.Valid()
      modifies lista, lista.Repr
      ensures fresh(r) && fresh(r.Repr) && r.Valid()
      ensures r.elementos == OrdenaMezcla(old(lista.elementos), clave)
      decreases lista.longitud
    {
      if lista.longitud == 1 || lista.EsVacia() {
        r := lista.Copia();
        return;
      }
      ghost var s := lista.elementos;
      var lista1, lista2 := Divide(lista);
      ghost var a, b := lista1.elementos, lista2.elementos;
      assert |s| > 1 && a == s[..|s| - |s| / 2] && b == s[|s| - |s| / 2..];
      label Cero:
      var o1 := OrdenaLista(lista1, clave);
      assert o1.Repr !! lista2.Repr by {
        assert forall o :: o in lista2.Repr ==> old@Cero(allocated(o));
      }
      assert lista2.Valid() == old@Cero(lista2.Valid()) && lista2.elementos == b;
      ghost var e1 := o1.elementos;
      label Uno:
      var o2 := OrdenaLista(lista2, clave);
      assert o1.Valid() == old@Uno(o1.Valid()) && o1.elementos == e1;
      ghost var e2 := o2.elementos;
      r := Mezcla(clave, o1, o2);
      assert e1 == OrdenaMezcla(a, clave);
      assert e2 == OrdenaMezcla(b, clave);
      assert r.elementos == Ordenes.Mezcla(e1, e2, clave);
      OrdenaMezclaDivide(s, a, b, e1, e2, r.elementos, clave);
    }

    /** The first part of the private `mergeSort` on a list of two or more
        elements: the loop that moves the first `n - n/2` elements to a new
        list, then a copy of the `n/2` that remain. */
    static method Divide(lista: Lista<T>) returns (lista1: Lista<T>, lista2: Lista<T>)
      requires lista.Valid()
      modifies lista, lista.Repr
      ensures fresh(lista1) && fresh(lista1.Repr) && lista1.Valid()
      ensures fresh(lista2) && fresh(lista2.Repr) && lista2.Valid()
      ensures lista1 != lista2 && lista1.Repr !! lista2.Repr
      ensures lista1.elementos == old(lista.elementos[..|lista.elementos| - |lista.elementos| / 2])
      ensures lista2.elementos == old(lista.elementos[|lista.elementos| - |lista.elementos| / 2..])
    {
      lista1 := Parte(lista);
      label Partida:
      lista2 := lista.Copia();
      assert lista1.Repr !! lista2.Repr by {
        assert forall o :: o in lista1.Repr ==> old@Partida(allocated(o));
      }
    }

    /** The loop of the private `mergeSort`: moves the first `n - n/2`
        elements of `lista` into a new list, leaving the last `n/2`. */
    static method Parte(lista: Lista<T>) returns (lista1: Lista<T>)
      requires lista.Valid()
      modifies lista, lista.Repr
      ensures fresh(lista1) && fresh(lista1.Repr) && lista1.Valid()
      ensures lista.Valid() && lista.Repr <= old(lista.Repr)
      ensures lista1.elementos == old(lista.elementos[..|lista.elementos| - |lista.elementos| / 2])
      ensures lista.elementos == old(lista.elementos[|lista.elementos| - |lista.elementos| / 2..])
    {
      lista1 := new Lista<T>();
      ghost var s := lista.elementos;
      ghost var k := 0;
      var l := lista.longitud / 2;
      while lista.longitud != l
        invariant lista.Valid() && lista1.Valid()
        invariant fresh(lista1) && fresh(lista1.Repr)
        invariant lista.Repr <= old(lista.Repr) && lista.Repr !! lista1.Repr
        invariant l == |s| / 2 <= lista.longitud
        invariant 0 <= k <= |s| && lista.elementos == s[k..] && lista1.elementos == s[..k]
        decreases lista.longitud
      {
        Mueve(lista, lista1, s, k);
        k := k + 1;
      }
    }

    /** One turn of that loop: `lista1.agrega(lista.getPrimero())`, then
        `eliminaPrimero()` on the non-empty `lista`. */
    static method Mueve(lista: Lista<T>, lista1: Lista<T>, ghost s: seq<T>, ghost k: int)
      requires lista.Valid() && lista1.Valid() && lista != lista1 && lista.Repr !! lista1.Repr
      requires 0 <= k < |s| && lista.elementos == s[k..] && lista1.elementos == s[..k]
      modifies lista, lista.Repr, lista1, lista1.Repr
      ensures lista.Valid() && lista1.Valid() && lista.Repr <= old(lista.Repr)
      ensures fresh(lista1.Repr - old(lista1.Repr)) && lista.Repr !! lista1.Repr
      ensures lista.elementos == s[k + 1..] && lista1.elementos == s[..k + 1]
    {
      PrefijoMasUno(s, k);
      var p := lista.GetPrimero();
      var _ := lista1.AgregaFinal(Some(p.valor));
      if lista.longitud != 0 {
        var _ := lista.EliminaPrimero();
      }
    }

    /** `busquedaLineal(elemento, comparador)`: whether some element compares
        equal to `elemento`. */
    method BusquedaLineal(elemento: T, clave: T -> int) returns (b: bool)
      requires Valid()
      ensures b <==> exists x :: x in elementos && clave(x) == clave(elemento)
    {
      var m := cabeza;
      ghost var k := 0;
      while m != null
        invariant 0 <= k <= |nodos|
        invariant m == (if k < |nodos| then nodos[k] else null)
        invariant forall x :: x in elementos[..k] ==> clave(x) != clave(elemento)
        decreases |nodos| - k
      {
        if clave(m.elemento) == clave(elemento) {
          return true;
        }
        assert elementos[..k + 1] == elementos[..k] + [elementos[k]];
        m := m.siguiente;
        k := k + 1;
      }
      assert elementos[..k] == elementos;
      b := false;
    }
  }

  /** The private `mergeSort` computes `OrdenaMezcla`: the first `n - n/2`
      elements sorted, merged with the last `n/2` sorted. */
  lemma {:induction false} OrdenaMezclaDivide<T>(s: seq<T>, a: seq<T>, b: seq<T>, e1: seq<T>, e2: seq<T>, r: seq<T>, clave: T -> int)
    requires |s| > 1 && a == s[..|s| - |s| / 2] && b == s[|s| - |s| / 2..]
    requires e1 == OrdenaMezcla(a, clave) && e2 == OrdenaMezcla(b, clave)
    requires r == Ordenes.Mezcla(e1, e2, clave)
    ensures r == OrdenaMezcla(s, clave)
  {
  }

  lemma {:induction false} PrefijoMasUno<T>(s: seq<T>, k: int)
    requires 0 <= k < |s|
    ensures s[..k + 1] == s[..k] + [s[k]] && s[k..][1..] == s[k + 1..]
  {
  }

  /** `Iterador`: a cursor between two nodes of a list; `anterior` and
      `siguiente` are the nodes on either side of position `pos`. */
  class Iterador<T(==)> {
    const lista: Lista<T>
    var anterior: Nodo?<T>
    var siguiente: Nodo?<T>
    ghost var pos: int

    ghost predicate Valid()
      reads this, lista, lista.Repr
    {
      && lista.Valid()
      && 0 <= pos <= |lista.nodos|
      && anterior == (if pos > 0 then lista.nodos[pos - 1] else null)
      && siguiente == (if pos < |lista.nodos| then lista.nodos[pos] else null)
    }

    /** `new Iterador()`: positioned at the start. */
    constructor (lista: Lista<T>)
      requires lista.Valid()
      ensures this.lista == lista && Valid() && pos == 0
    {
      this.lista := lista;
      anterior := null;
      siguiente := lista.cabeza;
      pos := 0;
    }

    /** `hasNext()`. */
    function HasNext(): (b: bool)
      reads this, lista, lista.Repr
      requires Valid()
      ensures b <==> pos < |lista.elementos|
    {
      siguiente != null
    }

    /** `hasPrevious()`. */
    function HasPrevious(): (b: bool)
      reads this, lista, lista.Repr
      requires Valid()
      ensures b <==> pos > 0
    {
      anterior != null
    }

    /** `next()`: the element after the cursor, which moves one step
        forward; throws at the end. */
    method Next() returns (r: Resultado<T>)
      requires Valid()
      modifies this
      ensures Valid()
      ensures old(pos) == |lista.elementos| ==> r == Falla(SinElemento) && pos == old(pos)
      ensures old(pos) < |lista.elementos| ==>
                r == Exito(lista.elementos[old(pos)]) && pos == old(pos) + 1
    {
      if siguiente == null {
        return Falla(SinElemento);
      }
      var s := siguiente.elemento;
      anterior := siguiente;
      siguiente := siguiente.siguiente;
      pos := pos + 1;
      r := Exito(s);
    }

    /** `previous()`: the element before the cursor, which moves one step
        back; throws at the start. */
    method Previous() returns (r: Resultado<T>)
      requires Valid()
      modifies this
      ensures Valid()
      ensures old(pos) == 0 ==> r == Falla(SinElemento) && pos == old(pos)
      ensures old(pos) > 0 ==> r == Exito(lista.elementos[old(pos) - 1]) && pos == old(pos) - 1
    {
      if anterior == null {
        return Falla(SinElemento);
      }
      siguiente := anterior;
      anterior := anterior.anterior;
      pos := pos - 1;
      r := Exito(siguiente.elemento);
    }

    /** `start()`. */
    method Start()
      requires Valid()
      modifies this
      ensures Valid() && pos == 0
    {
      anterior := null;
      siguiente := lista.cabeza;
      pos := 0;
    }

    /** `end()`. */
    method End()
      requires Valid()
      modifies this
      ensures Valid() && pos == |lista.elementos|
    {
      anterior := lista.rabo;
      siguiente := null;
      pos := |lista.nodos|;
    }
  }
}
