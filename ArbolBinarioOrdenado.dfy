/** `ArbolBinarioOrdenado`: binary search trees.

    Every vertex is at least every element below it on the left and at most
    every element below it on the right, so the in-order sequence is
    non-decreasing. The vertex-level operations (`agrega` attaching a leaf,
    `intercambiaEliminable`, `eliminaVertice`, the rotations) are functions
    from a tree and vertex paths to the relinked tree; AVL and red-black
    trees reuse them. */
module ArbolesOrdenados {
  import opened Comun
  import opened Arboles

  /* ---------- Order ---------- */

  /** The order of a search tree, vertex by vertex. */
  ghost predicate Ordenado<A>(t: Arbol<A>)
  {
    match t
    case Vacio => true
    case Nodo(l, e, _, d) =>
      Ordenado(l) && Ordenado(d)
      && (forall y :: y in Elementos(l) ==> y <= e)
      && (forall y :: y in Elementos(d) ==> e <= y)
  }

  /** The sides of a sorted sequence around a middle element are sorted and
      lie on the right side of it. */
  lemma {:induction false} OrdenadaPartesIda(a: seq<int>, e: int, b: seq<int>)
    requires Ordenada(a + [e] + b)
    ensures Ordenada(a) && Ordenada(b)
    ensures (forall y :: y in a ==> y <= e) && (forall y :: y in b ==> e <= y)
  {
    var s := a + [e] + b;
    assert s[|a|] == e;
    forall i, j | 0 <= i < j < |a|
      ensures a[i] <= a[j]
    {
      assert s[i] == a[i] && s[j] == a[j];
    }
    forall i, j | 0 <= i < j < |b|
      ensures b[i] <= b[j]
    {
      assert s[|a| + 1 + i] == b[i] && s[|a| + 1 + j] == b[j];
    }
    forall y | y in a
      ensures y <= e
    {
      var i :| 0 <= i < |a| && a[i] == y;
      assert s[i] == a[i];
    }
    forall y | y in b
      ensures e <= y
    {
      var i :| 0 <= i < |b| && b[i] == y;
      assert s[|a| + 1 + i] == b[i];
    }
  }

  /** Sorted sides on the right side of a middle element make a sorted
      sequence. */
  lemma {:induction false} OrdenadaPartesVuelta(a: seq<int>, e: int, b: seq<int>)
    requires Ordenada(a) && Ordenada(b)
    requires (forall y :: y in a ==> y <= e) && (forall y :: y in b ==> e <= y)
    ensures Ordenada(a + [e] + b)
  {
    var s := a + [e] + b;
    forall i, j | 0 <= i < j < |s|
      ensures s[i] <= s[j]
    {
      if j < |a| {
        assert s[i] == a[i] && s[j] == a[j];
      } else if i < |a| {
        assert s[i] == a[i] && a[i] in a;
        if j > |a| {
          assert s[j] == b[j - |a| - 1];
          assert s[j] in b;
        }
      } else if i == |a| {
        assert s[j] == b[j - |a| - 1];
        assert s[j] in b;
      } else {
        assert s[i] == b[i - |a| - 1] && s[j] == b[j - |a| - 1];
      }
    }
  }

  /** A sequence with an element in the middle is sorted exactly when both
      sides are sorted and lie on the right side of that element. */
  lemma {:induction false} OrdenadaPartes(a: seq<int>, e: int, b: seq<int>)
    ensures Ordenada(a + [e] + b) <==>
      Ordenada(a) && Ordenada(b) && (forall y :: y in a ==> y <= e) && (forall y :: y in b ==> e <= y)
  {
    if Ordenada(a + [e] + b) {
      OrdenadaPartesIda(a, e, b);
    }
    if Ordenada(a) && Ordenada(b) && (forall y :: y in a ==> y <= e) && (forall y :: y in b ==> e <= y) {
      OrdenadaPartesVuelta(a, e, b);
    }
  }

  /** The order of a search tree is the order of its in-order sequence. */
  lemma {:induction false} OrdenadoInOrden<A>(t: Arbol<A>)
    ensures Ordenado(t) <==> Ordenada(InOrden(t))
  {
    match t
    case Vacio =>
    case Nodo(l, e, _, d) =>
      OrdenadoInOrden(l);
      OrdenadoInOrden(d);
      InOrdenElementos(l);
      InOrdenElementos(d);
      assert forall y :: y in Elementos(l) <==> y in InOrden(l);
      assert forall y :: y in Elementos(d) <==> y in InOrden(d);
      OrdenadaPartes(InOrden(l), e, InOrden(d));
  }

  /** Dropping one element keeps a sorted sequence sorted. */
  lemma {:induction false} OrdenadaSinUno(a: seq<int>, e: int, b: seq<int>)
    requires Ordenada(a + [e] + b)
    ensures Ordenada(a + b)
  {
    var s := a + [e] + b;
    forall i, j | 0 <= i < j < |a + b|
      ensures (a + b)[i] <= (a + b)[j]
    {
      var i' := if i < |a| then i else i + 1;
      var j' := if j < |a| then j else j + 1;
      assert s[i'] == (a + b)[i] && s[j'] == (a + b)[j];
    }
  }

  /* ---------- Insertion ---------- */

  /** The empty position where `agrega` attaches a new vertex holding `x`:
      from the root it descends left when `x` is at most the vertex's
      element (ties go left) and right otherwise. */
  function Hueco<A>(t: Arbol<A>, x: int): (p: seq<Dir>)
    ensures EsPosicion(t, p) && Subarbol(t, p) == Vacio
  {
    match t
    case Vacio => []
    case Nodo(l, e, _, d) =>
      if x <= e then
        var q := Hueco(l, x);
        assert ([Izq] + q)[1..] == q;
        [Izq] + q
      else
        var q := Hueco(d, x);
        assert ([Der] + q)[1..] == q;
        [Der] + q
  }

  /** The tree after `agrega(x)`: a new vertex with `dato` (what
      `nuevoVertice` puts in it) attached as a leaf at `Hueco(t, x)`. */
  function AgregaHoja<A>(t: Arbol<A>, x: int, dato: A): Arbol<A>
  {
    Reemplaza(t, Hueco(t, x), Nodo(Vacio, x, dato, Vacio))
  }

  /** Attaching below a vertex is attaching inside the chosen subtree. */
  lemma {:induction false} AgregaHojaNodo<A>(t: Arbol<A>, x: int, dato: A)
    requires t.Nodo?
    ensures x <= t.elem ==> AgregaHoja(t, x, dato) == Nodo(AgregaHoja(t.izq, x, dato), t.elem, t.info, t.der)
    ensures t.elem < x ==> AgregaHoja(t, x, dato) == Nodo(t.izq, t.elem, t.info, AgregaHoja(t.der, x, dato))
  {
    var q := if x <= t.elem then Hueco(t.izq, x) else Hueco(t.der, x);
    if x <= t.elem {
      assert Hueco(t, x) == [Izq] + q;
      assert ([Izq] + q)[1..] == q;
    } else {
      assert Hueco(t, x) == [Der] + q;
      assert ([Der] + q)[1..] == q;
    }
  }

  /** `agrega` adds exactly `x`. */
  lemma {:induction false} AgregaHojaElementos<A>(t: Arbol<A>, x: int, dato: A)
    ensures Elementos(AgregaHoja(t, x, dato)) == Elementos(t) + multiset{x}
  {
    match t
    case Vacio =>
    case Nodo(l, e, _, d) =>
      AgregaHojaNodo(t, x, dato);
      if x <= e {
        AgregaHojaElementos(l, x, dato);
      } else {
        AgregaHojaElementos(d, x, dato);
      }
  }

  /** `agrega` keeps a search tree ordered: ties go to the left, where
      elements at most the vertex's own belong. */
  lemma {:induction false} AgregaHojaOrdenado<A>(t: Arbol<A>, x: int, dato: A)
    requires Ordenado(t)
    ensures Ordenado(AgregaHoja(t, x, dato))
  {
    match t
    case Vacio =>
    case Nodo(l, e, _, d) =>
      AgregaHojaNodo(t, x, dato);
      if x <= e {
        AgregaHojaOrdenado(l, x, dato);
        AgregaHojaElementos(l, x, dato);
        CotaConUno(Elementos(l), x, e, true);
      } else {
        AgregaHojaOrdenado(d, x, dato);
        AgregaHojaElementos(d, x, dato);
        CotaConUno(Elementos(d), x, e, false);
      }
  }

  /** A bound on every element of `m` that `x` also meets holds on `m`
      with `x` added: `arriba` bounds from above, otherwise from below. */
  lemma {:induction false} CotaConUno(m: multiset<int>, x: int, e: int, arriba: bool)
    requires arriba ==> x <= e && forall y :: y in m ==> y <= e
    requires !arriba ==> e <= x && forall y :: y in m ==> e <= y
    ensures arriba ==> forall y :: y in m + multiset{x} ==> y <= e
    ensures !arriba ==> forall y :: y in m + multiset{x} ==> e <= y
  {
    forall y | y in m + multiset{x}
      ensures y in m || y == x
    {
    }
  }

  /** The new vertex is a leaf at `Hueco(t, x)`: `getUltimoVerticeAgregado`
      points there. */
  lemma {:induction false} AgregaHojaEnHueco<A>(t: Arbol<A>, x: int, dato: A)
    ensures EsVertice(AgregaHoja(t, x, dato), Hueco(t, x))
    ensures Subarbol(AgregaHoja(t, x, dato), Hueco(t, x)) == Nodo(Vacio, x, dato, Vacio)
  {
    SubarbolReemplaza(t, Hueco(t, x), Nodo(Vacio, x, dato, Vacio), []);
    assert Hueco(t, x) + [] == Hueco(t, x);
  }

  /* ---------- Search ---------- */

  /** `busca` of a search tree: from the root, stop at a vertex equal to
      `x`, go right when the vertex is smaller and left otherwise; no
      vertex is found when the next child is absent. */
  function BuscaOrdenado<A>(t: Arbol<A>, x: int): (r: Option<seq<Dir>>)
    ensures r.Some? ==> EsVertice(t, r.valor) && Subarbol(t, r.valor).elem == x
    ensures Ordenado(t) ==> (r.None? <==> x !in Elementos(t))
  {
    match t
    case Vacio => None
    case Nodo(l, e, _, d) =>
      if e == x then Some([])
      else if e < x then
        match BuscaOrdenado(d, x)
        case None => None
        case Some(q) =>
          assert ([Der] + q)[1..] == q;
          Some([Der] + q)
      else
        match BuscaOrdenado(l, x)
        case None => None
        case Some(q) =>
          assert ([Izq] + q)[1..] == q;
          Some([Izq] + q)
  }

  /* ---------- Removal ---------- */

  /** `maximoEnSubarbol`: the path from a vertex down its right branch to
      the last vertex there, which has no right child. */
  function MaximoEn<A>(t: Arbol<A>): (q: seq<Dir>)
    requires t.Nodo?
    ensures EsVertice(t, q) && Subarbol(t, q).der.Vacio?
    ensures Subarbol(t, q).elem in Elementos(t)
    ensures Ordenado(t) ==> forall y :: y in Elementos(t) ==> y <= Subarbol(t, q).elem
  {
    if t.der.Vacio? then []
    else
      var q := MaximoEn(t.der);
      assert ([Der] + q)[1..] == q;
      [Der] + q
  }

  /** Nothing comes after the maximum in in-order. */
  lemma {:induction false} DespuesDeMaximo<A>(t: Arbol<A>)
    requires t.Nodo?
    ensures DespuesDe(t, MaximoEn(t)) == []
  {
    if t.der.Nodo? {
      DespuesDeMaximo(t.der);
      assert ([Der] + MaximoEn(t.der))[1..] == MaximoEn(t.der);
    }
  }

  /** `intercambiaEliminable`: the vertex at `p`, which has a left child,
      swaps elements with the maximum of its left subtree, the last vertex
      on that subtree's right branch; the result is the new tree and the
      path of that descendant. */
  function IntercambiaEliminable<A>(t: Arbol<A>, p: seq<Dir>): (r: (Arbol<A>, seq<Dir>))
    requires EsVertice(t, p) && Subarbol(t, p).izq.Nodo?
  {
    var v := Subarbol(t, p);
    var k := MaximoEn(v.izq);
    var m := Subarbol(v.izq, k);
    var l1 := Reemplaza(v.izq, k, Nodo(m.izq, v.elem, m.info, m.der));
    (Reemplaza(t, p, Nodo(l1, m.elem, v.info, v.der)), p + [Izq] + k)
  }

  /** The swap of `intercambiaEliminable` seen from the vertex `v` itself:
      the vertex keeps its elements, and the maximum of its left subtree,
      reached by `[Izq] + k`, now holds the vertex's element. */
  lemma {:induction false} IntercambioLocal<A>(v: Arbol<A>)
    requires v.Nodo? && v.izq.Nodo?
    ensures var k := MaximoEn(v.izq);
      var m := Subarbol(v.izq, k);
      var v2 := Nodo(Reemplaza(v.izq, k, Nodo(m.izq, v.elem, m.info, m.der)), m.elem, v.info, v.der);
      && Subarbol(v2, [Izq] + k) == Nodo(m.izq, v.elem, m.info, m.der)
      && Elementos(v2) == Elementos(v)
  {
    var k := MaximoEn(v.izq);
    var m := Subarbol(v.izq, k);
    var m1 := Nodo(m.izq, v.elem, m.info, m.der);
    var l1 := Reemplaza(v.izq, k, m1);
    var v2 := Nodo(l1, m.elem, v.info, v.der);
    assert ([Izq] + k)[1..] == k;
    VerticeEsPosicion(v.izq, k);
    SubarbolReemplaza(v.izq, k, m1, []);
    assert k + [] == k;
    ElementosReemplaza(v.izq, k, m1);
    assert Elementos(m1) + multiset{m.elem} == Elementos(m) + multiset{v.elem};
    CancelaMulticonjuntos(Elementos(l1), Elementos(v.izq), Elementos(m), Elementos(m1),
                          multiset{m.elem}, multiset{v.elem});
  }

  /** Putting a subtree with the same elements at a vertex keeps the
      elements of the whole tree. */
  lemma {:induction false} ReemplazaMismosElementos<A>(t: Arbol<A>, p: seq<Dir>, s: Arbol<A>)
    requires EsPosicion(t, p) && Elementos(s) == Elementos(Subarbol(t, p))
    ensures Elementos(Reemplaza(t, p, s)) == Elementos(t)
  {
    ElementosReemplaza(t, p, s);
    CancelaMulticonjuntos(Elementos(Reemplaza(t, p, s)), Elementos(t), Elementos(Subarbol(t, p)), Elementos(s),
                          multiset{}, multiset{});
    assert Elementos(Reemplaza(t, p, s)) + multiset{} == Elementos(Reemplaza(t, p, s));
    assert Elementos(t) + multiset{} == Elementos(t);
  }

  /** What `intercambiaEliminable` promises: the vertex it returns lies
      below the left child, has no right child and holds the element that
      was at `p`, while the vertex at `p` holds that descendant's former
      element, the maximum of the left subtree. */
  lemma {:induction false} IntercambiaEliminableCorrecto<A>(t: Arbol<A>, p: seq<Dir>)
    requires EsVertice(t, p) && Subarbol(t, p).izq.Nodo?
    ensures var (t2, q) := IntercambiaEliminable(t, p);
      var v := Subarbol(t, p);
      var m := Subarbol(v.izq, MaximoEn(v.izq));
      && |q| > |p| && q[..|p| + 1] == p + [Izq]
      && EsVertice(t2, q) && Subarbol(t2, q) == Nodo(m.izq, v.elem, m.info, Vacio)
      && EsVertice(t2, p) && Subarbol(t2, p).elem == m.elem
      && Elementos(t2) == Elementos(t)
  {
    var v := Subarbol(t, p);
    var k := MaximoEn(v.izq);
    var m := Subarbol(v.izq, k);
    var v2 := Nodo(Reemplaza(v.izq, k, Nodo(m.izq, v.elem, m.info, m.der)), m.elem, v.info, v.der);
    var t2 := Reemplaza(t, p, v2);
    var q := p + [Izq] + k;
    assert IntercambiaEliminable(t, p) == (t2, q);
    assert q == p + ([Izq] + k);
    IntercambioLocal(v);
    VerticeEsPosicion(t, p);
    SubarbolReemplaza(t, p, v2, [Izq] + k);
    SubarbolReemplaza(t, p, v2, []);
    assert p + [] == p;
    ReemplazaMismosElementos(t, p, v2);
    assert q[..|p| + 1] == p + [Izq];
  }

  /** `eliminaVertice`: the vertex at `q`, which has at most one child,
      is replaced in its parent (or as the root) by that child. At a root
      without children the source dereferences a null child, so callers
      never do that. */
  function EliminaVertice<A>(t: Arbol<A>, q: seq<Dir>): Arbol<A>
    requires EsVertice(t, q)
    requires Subarbol(t, q).izq.Vacio? || Subarbol(t, q).der.Vacio?
    requires q != [] || Subarbol(t, q).izq.Nodo? || Subarbol(t, q).der.Nodo?
  {
    var v := Subarbol(t, q);
    Reemplaza(t, q, if v.izq.Nodo? then v.izq else v.der)
  }

  /** The vertex `elimina` takes out of the tree: the one at `p`, or, when
      it has two children, the one it swaps with. */
  function EliminaEn<A>(t: Arbol<A>, p: seq<Dir>): Arbol<A>
    requires EsVertice(t, p)
    requires p != [] || Subarbol(t, p).izq.Nodo? || Subarbol(t, p).der.Nodo?
  {
    var v := Subarbol(t, p);
    if v.izq.Nodo? && v.der.Nodo? then
      var (t1, q) := IntercambiaEliminable(t, p);
      IntercambiaEliminableCorrecto(t, p);
      EliminaVertice(t1, q)
    else EliminaVertice(t, p)
  }

  /** Taking the maximum out of a subtree leaves the in-order sequence
      without its last element. */
  lemma {:induction false} QuitaMaximoInOrden<A>(l: Arbol<A>)
    requires l.Nodo?
    ensures var k := MaximoEn(l);
      var m := Subarbol(l, k);
      InOrden(Reemplaza(l, k, m.izq)) + [m.elem] == InOrden(l)
  {
    var k := MaximoEn(l);
    var m := Subarbol(l, k);
    VerticeEsPosicion(l, k);
    InOrdenReemplaza(l, k, m.izq);
    InOrdenAlrededor(l, k);
    DespuesDeMaximo(l);
    assert InOrden(m) == InOrden(m.izq) + [m.elem] + [];
  }

  /** Detaching the vertex `intercambiaEliminable` returns, seen from the
      vertex at `p`: its left subtree loses its maximum, which takes the
      vertex's place. */
  lemma {:induction false} DesprendeIntercambiado<A>(t: Arbol<A>, p: seq<Dir>)
    requires EsVertice(t, p) && Subarbol(t, p).izq.Nodo?
    ensures var v := Subarbol(t, p);
      var k := MaximoEn(v.izq);
      var m := Subarbol(v.izq, k);
      var (t2, q) := IntercambiaEliminable(t, p);
      EsVertice(t2, q)
      && Reemplaza(t2, q, m.izq) == Reemplaza(t, p, Nodo(Reemplaza(v.izq, k, m.izq), m.elem, v.info, v.der))
  {
    var v := Subarbol(t, p);
    var k := MaximoEn(v.izq);
    var m := Subarbol(v.izq, k);
    var v2 := Nodo(Reemplaza(v.izq, k, Nodo(m.izq, v.elem, m.info, m.der)), m.elem, v.info, v.der);
    var t2 := Reemplaza(t, p, v2);
    var q := p + [Izq] + k;
    assert IntercambiaEliminable(t, p) == (t2, q);
    assert q == p + ([Izq] + k);
    IntercambioLocal(v);
    DesprendeLocal(v);
    VerticeEsPosicion(t, p);
    SubarbolReemplaza(t, p, v2, [Izq] + k);
    ReemplazaCompone(t, p, v2, [Izq] + k, m.izq);
  }

  /** Detaching the swapped vertex, seen from the vertex `v` itself. */
  lemma {:induction false} DesprendeLocal<A>(v: Arbol<A>)
    requires v.Nodo? && v.izq.Nodo?
    ensures var k := MaximoEn(v.izq);
      var m := Subarbol(v.izq, k);
      var v2 := Nodo(Reemplaza(v.izq, k, Nodo(m.izq, v.elem, m.info, m.der)), m.elem, v.info, v.der);
      Reemplaza(v2, [Izq] + k, m.izq) == Nodo(Reemplaza(v.izq, k, m.izq), m.elem, v.info, v.der)
  {
    var k := MaximoEn(v.izq);
    var m := Subarbol(v.izq, k);
    assert ([Izq] + k)[1..] == k;
    VerticeEsPosicion(v.izq, k);
    ReemplazaDosVeces(v.izq, k, Nodo(m.izq, v.elem, m.info, m.der), m.izq);
  }

  /** Removing a vertex with two children, seen from that vertex: its
      left subtree loses its maximum, which takes the vertex's place. */
  lemma {:induction false} EliminaEnDosHijos<A>(t: Arbol<A>, p: seq<Dir>)
    requires EsVertice(t, p) && Subarbol(t, p).izq.Nodo? && Subarbol(t, p).der.Nodo?
    ensures var v := Subarbol(t, p);
      var k := MaximoEn(v.izq);
      var m := Subarbol(v.izq, k);
      EliminaEn(t, p) == Reemplaza(t, p, Nodo(Reemplaza(v.izq, k, m.izq), m.elem, v.info, v.der))
  {
    DesprendeIntercambiado(t, p);
    IntercambiaEliminableCorrecto(t, p);
  }

  /** `elimina` at a vertex: the in-order sequence loses exactly the
      element at `p`, in its place. */
  lemma {:induction false} EliminaEnInOrden<A>(t: Arbol<A>, p: seq<Dir>)
    requires EsVertice(t, p)
    requires p != [] || Subarbol(t, p).izq.Nodo? || Subarbol(t, p).der.Nodo?
    ensures var v := Subarbol(t, p);
      InOrden(EliminaEn(t, p)) == AntesDe(t, p) + (InOrden(v.izq) + InOrden(v.der)) + DespuesDe(t, p)
  {
    var v := Subarbol(t, p);
    VerticeEsPosicion(t, p);
    if v.izq.Nodo? && v.der.Nodo? {
      var k := MaximoEn(v.izq);
      var m := Subarbol(v.izq, k);
      var v3 := Nodo(Reemplaza(v.izq, k, m.izq), m.elem, v.info, v.der);
      EliminaEnDosHijos(t, p);
      QuitaMaximoInOrden(v.izq);
      assert InOrden(v3) == InOrden(v.izq) + InOrden(v.der);
      InOrdenReemplaza(t, p, v3);
    } else {
      InOrdenReemplaza(t, p, if v.izq.Nodo? then v.izq else v.der);
    }
  }

  /** `elimina` at a vertex removes its element once and keeps the order. */
  /** The in-order sequence around a deleted vertex: the vertex's element
      sits between a and b before, and only a and b remain after. */
  lemma {:induction false} EliminaEnPartes<A>(t: Arbol<A>, p: seq<Dir>) returns (a: seq<int>, b: seq<int>)
    requires EsVertice(t, p)
    requires p != [] || Subarbol(t, p).izq.Nodo? || Subarbol(t, p).der.Nodo?
    ensures InOrden(t) == a + [Subarbol(t, p).elem] + b
    ensures InOrden(EliminaEn(t, p)) == a + b
  {
    var v := Subarbol(t, p);
    VerticeEsPosicion(t, p);
    EliminaEnInOrden(t, p);
    InOrdenAlrededor(t, p);
    var l, m, r, d := AntesDe(t, p), InOrden(v.izq), InOrden(v.der), DespuesDe(t, p);
    a, b := l + m, r + d;
    assert InOrden(v) == m + [v.elem] + r;
    Reasocia(l, m, [v.elem], r, d);
    Reagrupa(l, m, r, d);
  }

  /** Regrouping four concatenated sequences. */
  lemma {:induction false} Reagrupa(l: seq<int>, m: seq<int>, r: seq<int>, d: seq<int>)
    ensures l + (m + r) + d == (l + m) + (r + d)
  {
  }

  /** Regrouping five concatenated sequences. */
  lemma {:induction false} Reasocia(l: seq<int>, m: seq<int>, x: seq<int>, r: seq<int>, d: seq<int>)
    ensures l + (m + x + r) + d == (l + m) + x + (r + d)
  {
  }

  lemma {:induction false} MulticonjuntoSinUno(a: seq<int>, e: int, b: seq<int>)
    ensures multiset(a + [e] + b) - multiset{e} == multiset(a + b)
  {
    assert a + [e] + b == (a + b[..0]) + [e] + b;
    calc {
      multiset(a + [e] + b);
      multiset(a) + multiset([e]) + multiset(b);
      multiset(a) + multiset(b) + multiset{e};
      multiset(a + b) + multiset{e};
    }
  }

  lemma {:induction false} EliminaEnCorrecto<A>(t: Arbol<A>, p: seq<Dir>)
    requires EsVertice(t, p)
    requires p != [] || Subarbol(t, p).izq.Nodo? || Subarbol(t, p).der.Nodo?
    ensures Elementos(EliminaEn(t, p)) == Elementos(t) - multiset{Subarbol(t, p).elem}
    ensures Ordenado(t) ==> Ordenado(EliminaEn(t, p))
  {
    var e := Subarbol(t, p).elem;
    var a, b := EliminaEnPartes(t, p);
    InOrdenElementos(t);
    InOrdenElementos(EliminaEn(t, p));
    MulticonjuntoSinUno(a, e, b);
    if Ordenado(t) {
      OrdenadoInOrden(t);
      OrdenadaSinUno(a, e, b);
      OrdenadoInOrden(EliminaEn(t, p));
    }
  }

  /* ---------- Rotations ---------- */

  /** A vertex turned right: its left child takes its place and the vertex
      becomes that child's right child, adopting the child's right
      subtree as its left. */
  function RotaDerecha<A>(v: Arbol<A>): (r: Arbol<A>)
    requires v.Nodo? && v.izq.Nodo?
    ensures InOrden(r) == InOrden(v)
  {
    var q := v.izq;
    Nodo(q.izq, q.elem, q.info, Nodo(q.der, v.elem, v.info, v.der))
  }

  /** A vertex turned left: the mirror image of `RotaDerecha`. */
  function RotaIzquierda<A>(v: Arbol<A>): (r: Arbol<A>)
    requires v.Nodo? && v.der.Nodo?
    ensures InOrden(r) == InOrden(v)
  {
    var q := v.der;
    Nodo(Nodo(v.izq, v.elem, v.info, q.izq), q.elem, q.info, q.der)
  }

  /** `giraDerecha`: nothing happens when the vertex at `p` has no left
      child; otherwise it is turned right in place (as the root when `p`
      is the root). */
  function GiroDerecho<A>(t: Arbol<A>, p: seq<Dir>): Arbol<A>
    requires EsVertice(t, p)
  {
    var v := Subarbol(t, p);
    if v.izq.Vacio? then t else Reemplaza(t, p, RotaDerecha(v))
  }

  /** `giraIzquierda`: the mirror image of `GiroDerecho`. */
  function GiroIzquierdo<A>(t: Arbol<A>, p: seq<Dir>): Arbol<A>
    requires EsVertice(t, p)
  {
    var v := Subarbol(t, p);
    if v.der.Vacio? then t else Reemplaza(t, p, RotaIzquierda(v))
  }

  /** Replacing a subtree by one with the same in-order sequence keeps
      the in-order sequence, the elements and the order of the whole. */
  lemma {:induction false} ReemplazaInOrdenIgual<A>(t: Arbol<A>, p: seq<Dir>, s: Arbol<A>)
    requires EsPosicion(t, p) && InOrden(s) == InOrden(Subarbol(t, p))
    ensures InOrden(Reemplaza(t, p, s)) == InOrden(t)
    ensures Elementos(Reemplaza(t, p, s)) == Elementos(t)
    ensures Ordenado(Reemplaza(t, p, s)) == Ordenado(t)
  {
    InOrdenAlrededor(t, p);
    InOrdenReemplaza(t, p, s);
    InOrdenElementos(t);
    InOrdenElementos(Reemplaza(t, p, s));
    OrdenadoInOrden(t);
    OrdenadoInOrden(Reemplaza(t, p, s));
  }

  /** `giraDerecha` keeps the in-order sequence, hence the elements and the
      order of the tree, and keeps a vertex at `p`. */
  lemma {:induction false} GiroDerechoCorrecto<A>(t: Arbol<A>, p: seq<Dir>)
    requires EsVertice(t, p)
    ensures InOrden(GiroDerecho(t, p)) == InOrden(t)
    ensures Elementos(GiroDerecho(t, p)) == Elementos(t)
    ensures Ordenado(GiroDerecho(t, p)) == Ordenado(t)
    ensures EsVertice(GiroDerecho(t, p), p)
  {
    var v := Subarbol(t, p);
    if v.izq.Nodo? {
      VerticeEsPosicion(t, p);
      ReemplazaInOrdenIgual(t, p, RotaDerecha(v));
      SubarbolReemplaza(t, p, RotaDerecha(v), []);
      assert p + [] == p;
    }
  }

  /** `giraIzquierda`: the mirror image of `GiroDerechoCorrecto`. */
  lemma {:induction false} GiroIzquierdoCorrecto<A>(t: Arbol<A>, p: seq<Dir>)
    requires EsVertice(t, p)
    ensures InOrden(GiroIzquierdo(t, p)) == InOrden(t)
    ensures Elementos(GiroIzquierdo(t, p)) == Elementos(t)
    ensures Ordenado(GiroIzquierdo(t, p)) == Ordenado(t)
    ensures EsVertice(GiroIzquierdo(t, p), p)
  {
    var v := Subarbol(t, p);
    if v.der.Nodo? {
      VerticeEsPosicion(t, p);
      ReemplazaInOrdenIgual(t, p, RotaIzquierda(v));
      SubarbolReemplaza(t, p, RotaIzquierda(v), []);
      assert p + [] == p;
    }
  }

  /** Turning right and then left at the same vertex restores the tree. */
  lemma {:induction false} GirosInversos<A>(t: Arbol<A>, p: seq<Dir>)
    requires EsVertice(t, p) && Subarbol(t, p).izq.Nodo?
    ensures EsVertice(GiroDerecho(t, p), p)
    ensures GiroIzquierdo(GiroDerecho(t, p), p) == t
  {
    var v := Subarbol(t, p);
    var r := RotaDerecha(v);
    VerticeEsPosicion(t, p);
    SubarbolReemplaza(t, p, r, []);
    assert p + [] == p;
    ReemplazaDosVeces(t, p, r, RotaIzquierda(r));
    ReemplazaMismo(t, p);
  }

  /* ---------- The tree object ---------- */

  /** Taking its only element out of a multiset empties it. */
  lemma {:induction false} UnicoElemento(m: multiset<int>, x: int)
    requires |m| == 1 && x in m
    ensures m - multiset{x} == multiset{}
  {
    var r := m - multiset{x};
    assert m == r + multiset{x};
    assert |r| == 0;
  }

  /** A tree with one vertex and no children has one element. */
  lemma {:induction false} TamanoHoja<A>(t: Arbol<A>)
    requires t.Nodo? && t.izq.Vacio? && t.der.Vacio?
    ensures Tamano(t) == 1
  {
  }

  /** The tree after `elimina` removes the vertex at `p`: the last element
      leaves an empty tree, and any other vertex is removed by `EliminaEn`
      (a root without children is then impossible, as it would be the last
      element). */
  function Quita<A>(t: Arbol<A>, p: seq<Dir>): Arbol<A>
    requires EsVertice(t, p)
  {
    if Tamano(t) == 1 then Vacio
    else
      if p == [] && t.izq.Vacio? && t.der.Vacio? then
        TamanoHoja(t);
        assert false;
        Vacio
      else EliminaEn(t, p)
  }

  /** `Quita` removes exactly the element at `p`, one vertex, and keeps a
      search tree ordered. */
  lemma {:induction false} QuitaCorrecto<A>(t: Arbol<A>, p: seq<Dir>)
    requires EsVertice(t, p)
    ensures Elementos(Quita(t, p)) == Elementos(t) - multiset{Subarbol(t, p).elem}
    ensures Tamano(Quita(t, p)) == Tamano(t) - 1
    ensures Ordenado(t) ==> Ordenado(Quita(t, p))
  {
    var x := Subarbol(t, p).elem;
    if Tamano(t) == 1 {
      ElementoDeVertice(t, p);
      UnicoElemento(Elementos(t), x);
    } else {
      EliminaEnCorrecto(t, p);
      ElementoDeVertice(t, p);
      var m := Elementos(t);
      assert |m - multiset{x}| == |m| - 1 by {
        assert m == (m - multiset{x}) + multiset{x};
      }
    }
  }

  /** The same tree as seen through the in-order sequence: same elements,
      same size, and ordered together. */
  lemma {:induction false} MismoInOrden<A>(a: Arbol<A>, b: Arbol<A>)
    requires InOrden(a) == InOrden(b)
    ensures Elementos(a) == Elementos(b) && Tamano(a) == Tamano(b)
    ensures Ordenado(a) <==> Ordenado(b)
  {
    InOrdenElementos(a);
    InOrdenElementos(b);
    OrdenadoInOrden(a);
    OrdenadoInOrden(b);
  }

  /** An `ArbolBinarioOrdenado`: the root, the element count inherited
      from `ArbolBinario`, and `ultimoAgregado`, the path of the vertex
      added last. Its vertices carry no payload. */
  class ArbolBinarioOrdenado {
    var raiz: Arbol<()>
    var elementos: int
    var ultimoAgregado: Option<seq<Dir>>

    /** The count is right and the tree is a search tree. */
    ghost predicate Valid()
      reads this
    {
      elementos == Tamano(raiz) && Ordenado(raiz)
    }

    /** An empty tree. */
    constructor()
      ensures Valid() && raiz == Vacio && elementos == 0 && ultimoAgregado == None
    {
      raiz := Vacio;
      elementos := 0;
      ultimoAgregado := None;
    }

    /** `agrega`: null is refused with IllegalArgumentException; otherwise
        a leaf holding `x` is attached where the descent (ties to the left)
        runs out, the count grows by one and `ultimoAgregado` names the new
        leaf. */
    method Agrega(x: Option<int>) returns (s: Salida)
      requires Valid()
      modifies this
      ensures Valid()
      ensures x.None? ==> (s == Lanza(ArgumentoIlegal) && raiz == old(raiz)
        && elementos == old(elementos) && ultimoAgregado == old(ultimoAgregado))
      ensures x.Some? ==> (s == Normal && raiz == AgregaHoja(old(raiz), x.valor, ())
        && elementos == old(elementos) + 1
        && Elementos(raiz) == old(Elementos(raiz)) + multiset{x.valor}
        && ultimoAgregado == Some(Hueco(old(raiz), x.valor))
        && EsVertice(raiz, ultimoAgregado.valor)
        && Subarbol(raiz, ultimoAgregado.valor) == Nodo(Vacio, x.valor, (), Vacio))
    {
      if x.None? {
        return Lanza(ArgumentoIlegal);
      }
      var t := raiz;
      AgregaHojaElementos(t, x.valor, ());
      AgregaHojaOrdenado(t, x.valor, ());
      AgregaHojaEnHueco(t, x.valor, ());
      raiz := AgregaHoja(t, x.valor, ());
      elementos := elementos + 1;
      ultimoAgregado := Some(Hueco(t, x.valor));
      s := Normal;
    }

    /** `busca`: the vertex reached by descending by comparison, or none
        for null or an empty tree. */
    method Busca(x: Option<int>) returns (r: Option<seq<Dir>>)
      requires Valid()
      ensures r.Some? ==> x.Some? && EsVertice(raiz, r.valor) && Subarbol(raiz, r.valor).elem == x.valor
      ensures r.None? <==> x.None? || x.valor !in Elementos(raiz)
      ensures x.Some? && raiz.Nodo? ==> r == BuscaOrdenado(raiz, x.valor)
    {
      if raiz.Vacio? || x.None? {
        return None;
      }
      r := BuscaOrdenado(raiz, x.valor);
    }

    /** `elimina`: nothing happens for null or an absent element; otherwise
        the vertex `busca` finds is removed by `EliminaEncontrado`. */
    method Elimina(x: Option<int>)
      requires Valid()
      modifies this
      ensures Valid() && ultimoAgregado == old(ultimoAgregado)
      ensures x.None? || x.valor !in old(Elementos(raiz)) ==>
        (raiz == old(raiz) && elementos == old(elementos))
      ensures x.Some? && x.valor in old(Elementos(raiz)) ==>
        (elementos == old(elementos) - 1
        && Elementos(raiz) == old(Elementos(raiz)) - multiset{x.valor})
      ensures x.Some? && x.valor in old(Elementos(raiz)) ==>
        raiz == Quita(old(raiz), BuscaOrdenado(old(raiz), x.valor).valor)
    {
      if x.None? {
        return;
      }
      var e := Busca(x);
      if e.Some? {
        EliminaEncontrado(e.valor);
      }
    }

    /** The removal of the vertex at `p` once found: the count drops by one
        and the tree becomes `Quita(raiz, p)`. */
    method EliminaEncontrado(p: seq<Dir>)
      requires Valid() && EsVertice(raiz, p)
      modifies this
      ensures Valid() && ultimoAgregado == old(ultimoAgregado)
      ensures elementos == old(elementos) - 1 && raiz == Quita(old(raiz), p)
      ensures Elementos(raiz) == old(Elementos(raiz)) - multiset{old(Subarbol(raiz, p).elem)}
    {
      QuitaCorrecto(raiz, p);
      elementos := elementos - 1;
      raiz := Quita(raiz, p);
    }

    /** `giraDerecha` on the vertex at `p`. */
    method GiraDerecha(p: seq<Dir>)
      requires Valid() && EsVertice(raiz, p)
      modifies this
      ensures Valid() && raiz == GiroDerecho(old(raiz), p)
      ensures InOrden(raiz) == old(InOrden(raiz))
      ensures elementos == old(elementos) && ultimoAgregado == old(ultimoAgregado)
    {
      GiroDerechoCorrecto(raiz, p);
      raiz := GiroDerecho(raiz, p);
    }

    /** `giraIzquierda` on the vertex at `p`. */
    method GiraIzquierda(p: seq<Dir>)
      requires Valid() && EsVertice(raiz, p)
      modifies this
      ensures Valid() && raiz == GiroIzquierdo(old(raiz), p)
      ensures InOrden(raiz) == old(InOrden(raiz))
      ensures elementos == old(elementos) && ultimoAgregado == old(ultimoAgregado)
    {
      GiroIzquierdoCorrecto(raiz, p);
      raiz := GiroIzquierdo(raiz, p);
    }
  }
}
