/** `ArbolBinario`: the part shared by every binary tree of the library.

    A vertex object (element, parent, left and right links) is modelled as a
    value: `Nodo(izq, elem, info, der)` is a vertex together with everything
    below it, and `Vacio` is an absent (null) vertex. `info` is the datum a
    kind of tree adds to its vertices: nothing for ordered and complete
    trees, the stored height for AVL trees, the colour for red-black trees.
    A vertex of a tree is named by the path of left/right steps that reaches
    it from the root; its parent is the path without the last step. */
module Arboles {
  import opened Comun

  /** A step from a vertex to one of its children. */
  datatype Dir = Izq | Der

  /** A binary tree: an absent vertex, or a vertex with its subtrees. */
  datatype Arbol<A> = Vacio | Nodo(izq: Arbol<A>, elem: int, info: A, der: Arbol<A>)

  function Max(a: int, b: int): int
  {
    if a >= b then a else b
  }

  /* ---------- Height and depth ---------- */

  /** The height of a vertex: -1 for an absent vertex, otherwise one more
      than the taller of its subtrees. */
  function AlturaDe<A>(t: Arbol<A>): (r: int)
    ensures -1 <= r
    ensures r == -1 <==> t.Vacio?
  {
    match t
    case Vacio => -1
    case Nodo(l, _, _, d) => 1 + Max(AlturaDe(l), AlturaDe(d))
  }

  /** The subtree reached from the root by following `p`; empty once the
      path leaves the tree. */
  function Subarbol<A>(t: Arbol<A>, p: seq<Dir>): Arbol<A>
    decreases |p|
  {
    if p == [] then t
    else if t.Vacio? then Vacio
    else Subarbol(if p[0] == Izq then t.izq else t.der, p[1..])
  }

  /** `p` names a vertex of `t`. */
  predicate EsVertice<A>(t: Arbol<A>, p: seq<Dir>)
  {
    Subarbol(t, p).Nodo?
  }

  /** Following `p` and then `q` is following `p + q`. */
  lemma {:induction false} SubarbolConcatena<A>(t: Arbol<A>, p: seq<Dir>, q: seq<Dir>)
    ensures Subarbol(t, p + q) == Subarbol(Subarbol(t, p), q)
    decreases |p|
  {
    if p == [] {
      assert p + q == q;
    } else if t.Vacio? {
      SubarbolVacio<A>(q);
    } else {
      assert (p + q)[1..] == p[1..] + q;
      SubarbolConcatena(if p[0] == Izq then t.izq else t.der, p[1..], q);
    }
  }

  /** Nothing is reached from an absent vertex. */
  lemma {:induction false} SubarbolVacio<A>(q: seq<Dir>)
    ensures Subarbol<A>(Vacio, q) == Vacio
  {
  }

  /** The child of a vertex on side `d`, and the side opposite `d`. */
  function Hijo<A>(n: Arbol<A>, d: Dir): Arbol<A>
    requires n.Nodo?
  {
    if d == Izq then n.izq else n.der
  }

  function Otro(d: Dir): Dir
  {
    if d == Izq then Der else Izq
  }

  /** The child that takes a vertex's place when it has at most one: the
      left one if there is one, else the right one. */
  function HijoUnico<A>(v: Arbol<A>): Arbol<A>
    requires v.Nodo?
  {
    if v.izq.Nodo? then v.izq else v.der
  }

  /** One step below a vertex is its child on that side. */
  lemma {:induction false} SubarbolHijo<A>(t: Arbol<A>, q: seq<Dir>, d: Dir)
    requires EsVertice(t, q)
    ensures Subarbol(t, q + [d]) == Hijo(Subarbol(t, q), d)
  {
    SubarbolConcatena(t, q, [d]);
  }

  /** Replacing a vertex leaves its path a position, below a vertex. */
  lemma {:induction false} ReemplazaVertice<A>(t: Arbol<A>, q: seq<Dir>, c: Arbol<A>)
    requires EsVertice(t, q)
    ensures EsPosicion(Reemplaza(t, q, c), q)
    ensures q != [] ==> EsVertice(Reemplaza(t, q, c), q[..|q| - 1])
  {
    assert q + [] == q;
    VerticeEsPosicion(t, q);
    PosicionReemplaza(t, q, c, []);
    if q != [] {
      assert q[..|q| - 1] + [q[|q| - 1]] == q;
      PadreDePosicion(Reemplaza(t, q, c), q[..|q| - 1], q[|q| - 1]);
    }
  }

  /** The parent of a vertex is a vertex. */
  lemma {:induction false} PrefijoVertice<A>(t: Arbol<A>, p: seq<Dir>, q: seq<Dir>)
    requires EsVertice(t, p + q)
    ensures EsVertice(t, p)
  {
    SubarbolConcatena(t, p, q);
    if Subarbol(t, p).Vacio? {
      SubarbolVacio<A>(q);
    }
  }

  /** No vertex is deeper than the height of the tree. */
  lemma {:induction false} AlturaCota<A>(t: Arbol<A>, p: seq<Dir>)
    requires EsVertice(t, p)
    ensures |p| <= AlturaDe(t)
    decreases |p|
  {
    if p != [] {
      AlturaCota(if p[0] == Izq then t.izq else t.der, p[1..]);
    }
  }

  /** A deepest vertex: its depth is the height of the tree. */
  function MasProfundo<A>(t: Arbol<A>): (p: seq<Dir>)
    requires t.Nodo?
    ensures EsVertice(t, p) && |p| == AlturaDe(t)
  {
    if t.izq.Nodo? && AlturaDe(t.izq) >= AlturaDe(t.der) then
      var q := MasProfundo(t.izq);
      assert ([Izq] + q)[1..] == q;
      [Izq] + q
    else if t.der.Nodo? then
      var q := MasProfundo(t.der);
      assert ([Der] + q)[1..] == q;
      [Der] + q
    else []
  }

  /** `profundidad`: 0 at a vertex without parent, otherwise one more than
      the depth of the parent. */
  function Profundidad(p: seq<Dir>): nat
  {
    if p == [] then 0 else 1 + Profundidad(p[..|p| - 1])
  }

  /** The depth of a vertex is the number of steps from the root. */
  lemma {:induction false} ProfundidadLongitud(p: seq<Dir>)
    ensures Profundidad(p) == |p|
  {
    if p != [] {
      ProfundidadLongitud(p[..|p| - 1]);
    }
  }

  /* ---------- Links of a vertex ---------- */

  /** `padre()`: the parent, or NoSuchElementException at the root. */
  function Padre<A>(t: Arbol<A>, p: seq<Dir>): (r: Resultado<seq<Dir>>)
    requires EsVertice(t, p)
    ensures r.Falla? <==> p == []
    ensures r.Falla? ==> r.excepcion == SinElemento
    ensures r.Exito? ==> EsVertice(t, r.valor) && r.valor + [p[|p| - 1]] == p
  {
    if p == [] then Falla(SinElemento)
    else
      var q := p[..|p| - 1];
      assert q + [p[|p| - 1]] == p;
      PrefijoVertice(t, q, [p[|p| - 1]]);
      Exito(q)
  }

  /** `izquierdo()`: the left child, or NoSuchElementException when there
      is none. */
  function Izquierdo<A>(t: Arbol<A>, p: seq<Dir>): (r: Resultado<seq<Dir>>)
    requires EsVertice(t, p)
    ensures r.Falla? <==> Subarbol(t, p).izq.Vacio?
    ensures r.Falla? ==> r.excepcion == SinElemento
    ensures r.Exito? ==> r.valor == p + [Izq] && Subarbol(t, r.valor) == Subarbol(t, p).izq
  {
    SubarbolConcatena(t, p, [Izq]);
    if Subarbol(t, p).izq.Vacio? then Falla(SinElemento) else Exito(p + [Izq])
  }

  /** `derecho()`: the right child, or NoSuchElementException when there
      is none. */
  function Derecho<A>(t: Arbol<A>, p: seq<Dir>): (r: Resultado<seq<Dir>>)
    requires EsVertice(t, p)
    ensures r.Falla? <==> Subarbol(t, p).der.Vacio?
    ensures r.Falla? ==> r.excepcion == SinElemento
    ensures r.Exito? ==> r.valor == p + [Der] && Subarbol(t, r.valor) == Subarbol(t, p).der
  {
    SubarbolConcatena(t, p, [Der]);
    if Subarbol(t, p).der.Vacio? then Falla(SinElemento) else Exito(p + [Der])
  }

  /* ---------- Contents ---------- */

  /** The elements of the vertices of a tree. */
  ghost function Elementos<A>(t: Arbol<A>): multiset<int>
  {
    match t
    case Vacio => multiset{}
    case Nodo(l, e, _, d) => Elementos(l) + multiset{e} + Elementos(d)
  }

  /** The elements in in-order: left subtree, vertex, right subtree. */
  function InOrden<A>(t: Arbol<A>): seq<int>
  {
    match t
    case Vacio => []
    case Nodo(l, e, _, d) => InOrden(l) + [e] + InOrden(d)
  }

  /** The elements in pre-order: vertex, left subtree, right subtree. */
  function PreOrden<A>(t: Arbol<A>): seq<int>
  {
    match t
    case Vacio => []
    case Nodo(l, e, _, d) => [e] + PreOrden(l) + PreOrden(d)
  }

  /** The elements in post-order: left subtree, right subtree, vertex. */
  function PostOrden<A>(t: Arbol<A>): seq<int>
  {
    match t
    case Vacio => []
    case Nodo(l, e, _, d) => PostOrden(l) + PostOrden(d) + [e]
  }

  /** The in-order sequence lists every element once. */
  lemma {:induction false} InOrdenElementos<A>(t: Arbol<A>)
    ensures multiset(InOrden(t)) == Elementos(t)
  {
    match t
    case Vacio =>
    case Nodo(l, e, _, d) =>
      InOrdenElementos(l);
      InOrdenElementos(d);
      assert InOrden(t) == InOrden(l) + [e] + InOrden(d);
  }

  /** The pre-order sequence lists every element once. */
  lemma {:induction false} PreOrdenElementos<A>(t: Arbol<A>)
    ensures multiset(PreOrden(t)) == Elementos(t)
  {
    match t
    case Vacio =>
    case Nodo(l, e, _, d) =>
      PreOrdenElementos(l);
      PreOrdenElementos(d);
      assert PreOrden(t) == [e] + PreOrden(l) + PreOrden(d);
  }

  /** The post-order sequence lists every element once. */
  lemma {:induction false} PostOrdenElementos<A>(t: Arbol<A>)
    ensures multiset(PostOrden(t)) == Elementos(t)
  {
    match t
    case Vacio =>
    case Nodo(l, e, _, d) =>
      PostOrdenElementos(l);
      PostOrdenElementos(d);
      assert PostOrden(t) == PostOrden(l) + PostOrden(d) + [e];
  }

  /** The number of vertices. */
  function Tamano<A>(t: Arbol<A>): (n: nat)
    ensures n == |Elementos(t)|
  {
    match t
    case Vacio => 0
    case Nodo(l, _, _, d) => Tamano(l) + 1 + Tamano(d)
  }

  /** `p` reaches a vertex or an empty position just below one: every
      proper prefix of `p` names a vertex. */
  predicate EsPosicion<A>(t: Arbol<A>, p: seq<Dir>)
    decreases |p|
  {
    p == [] || (t.Nodo? && EsPosicion(if p[0] == Izq then t.izq else t.der, p[1..]))
  }

  /** Every vertex is a position. */
  lemma {:induction false} VerticeEsPosicion<A>(t: Arbol<A>, p: seq<Dir>)
    requires EsVertice(t, p)
    ensures EsPosicion(t, p)
    decreases |p|
  {
    if p != [] {
      VerticeEsPosicion(if p[0] == Izq then t.izq else t.der, p[1..]);
    }
  }

  /** The children of a vertex are positions. */
  lemma {:induction false} HijoEsPosicion<A>(t: Arbol<A>, p: seq<Dir>, d: Dir)
    requires EsVertice(t, p)
    ensures EsPosicion(t, p + [d])
    decreases |p|
  {
    if p == [] {
      assert ([] + [d])[1..] == [];
    } else {
      assert (p + [d])[1..] == p[1..] + [d];
      HijoEsPosicion(if p[0] == Izq then t.izq else t.der, p[1..], d);
    }
  }

  /** The tree with the subtree at position `p` replaced by `s`: the
      relinking of a parent (or of the root) to a new child. */
  function Reemplaza<A>(t: Arbol<A>, p: seq<Dir>, s: Arbol<A>): Arbol<A>
    decreases |p|
  {
    if p == [] then s
    else if t.Vacio? then t
    else if p[0] == Izq then Nodo(Reemplaza(t.izq, p[1..], s), t.elem, t.info, t.der)
    else Nodo(t.izq, t.elem, t.info, Reemplaza(t.der, p[1..], s))
  }

  /** Replacing a subtree replaces its elements and nothing else. */
  lemma {:induction false} ElementosReemplaza<A>(t: Arbol<A>, p: seq<Dir>, s: Arbol<A>)
    requires EsPosicion(t, p)
    ensures Elementos(Reemplaza(t, p, s)) + Elementos(Subarbol(t, p)) == Elementos(t) + Elementos(s)
    decreases |p|
  {
    if p != [] {
      var l, e, d := t.izq, multiset{t.elem}, t.der;
      if p[0] == Izq {
        ElementosReemplaza(l, p[1..], s);
        var r := Reemplaza(l, p[1..], s);
        assert Elementos(Reemplaza(t, p, s)) == Elementos(r) + e + Elementos(d);
        assert Subarbol(t, p) == Subarbol(l, p[1..]);
        SumaMulticonjuntos(Elementos(r), Elementos(Subarbol(l, p[1..])), Elementos(l), Elementos(s), e, Elementos(d));
      } else {
        ElementosReemplaza(d, p[1..], s);
        var r := Reemplaza(d, p[1..], s);
        assert Elementos(Reemplaza(t, p, s)) == Elementos(l) + e + Elementos(r);
        assert Subarbol(t, p) == Subarbol(d, p[1..]);
        SumaMulticonjuntos(Elementos(r), Elementos(Subarbol(d, p[1..])), Elementos(d), Elementos(s), Elementos(l), e);
      }
    }
  }

  /** Replacing `a` by `r` inside a sum of multisets, on either side. */
  lemma {:induction false} SumaMulticonjuntos(r: multiset<int>, q: multiset<int>, a: multiset<int>, s: multiset<int>,
                           l: multiset<int>, e: multiset<int>)
    requires r + q == a + s
    ensures r + l + e + q == a + l + e + s
    ensures l + e + r + q == l + e + a + s
  {
    forall x {
      calc {
        (r + l + e + q)[x];
        (r + q)[x] + l[x] + e[x];
        (a + s)[x] + l[x] + e[x];
        (a + l + e + s)[x];
      }
    }
    forall x {
      calc {
        (l + e + r + q)[x];
        (r + q)[x] + l[x] + e[x];
        (a + s)[x] + l[x] + e[x];
        (l + e + a + s)[x];
      }
    }
  }

  /** Cancelling a common part of two equal sums of multisets. */
  lemma {:induction false} CancelaMulticonjuntos(a: multiset<int>, b: multiset<int>, c: multiset<int>, d: multiset<int>,
                              x: multiset<int>, y: multiset<int>)
    requires a + c == b + d && d + x == c + y
    ensures a + x == b + y
  {
    forall z
      ensures (a + x)[z] == (b + y)[z]
    {
      assert (a + c)[z] == (b + d)[z];
      assert (d + x)[z] == (c + y)[z];
    }
  }

  /** The element held at a vertex is an element of the tree. */
  lemma {:induction false} ElementoDeVertice<A>(t: Arbol<A>, p: seq<Dir>)
    requires EsVertice(t, p)
    ensures Subarbol(t, p).elem in Elementos(t)
    decreases |p|
  {
    if p != [] {
      ElementoDeVertice(if p[0] == Izq then t.izq else t.der, p[1..]);
    }
  }

  /** After the replacement, `s` is at `p`, and what lies below `p` is
      what lies below in `s`. */
  lemma {:induction false} SubarbolReemplaza<A>(t: Arbol<A>, p: seq<Dir>, s: Arbol<A>, r: seq<Dir>)
    requires EsPosicion(t, p)
    ensures Subarbol(Reemplaza(t, p, s), p + r) == Subarbol(s, r)
    decreases |p|
  {
    if p == [] {
      assert p + r == r;
    } else {
      assert (p + r)[1..] == p[1..] + r;
      if p[0] == Izq {
        SubarbolReemplaza(t.izq, p[1..], s, r);
      } else {
        SubarbolReemplaza(t.der, p[1..], s, r);
        var n := Reemplaza(t, p, s);
        assert n == Nodo(t.izq, t.elem, t.info, Reemplaza(t.der, p[1..], s));
        assert Subarbol(n, p + r) == Subarbol(n.der, p[1..] + r);
      }
    }
  }

  /** Putting back the subtree that is there changes nothing. */
  lemma {:induction false} ReemplazaMismo<A>(t: Arbol<A>, p: seq<Dir>)
    requires EsPosicion(t, p)
    ensures Reemplaza(t, p, Subarbol(t, p)) == t
    decreases |p|
  {
    if p != [] {
      if p[0] == Izq {
        ReemplazaMismo(t.izq, p[1..]);
      } else {
        ReemplazaMismo(t.der, p[1..]);
      }
    }
  }

  /** The second of two replacements, below the first, happens inside the
      first one's new subtree. */
  lemma {:induction false} ReemplazaCompone<A>(t: Arbol<A>, p: seq<Dir>, s: Arbol<A>, r: seq<Dir>, u: Arbol<A>)
    requires EsPosicion(t, p)
    ensures Reemplaza(Reemplaza(t, p, s), p + r, u) == Reemplaza(t, p, Reemplaza(s, r, u))
    decreases |p|
  {
    if p == [] {
      assert p + r == r;
    } else {
      assert (p + r)[1..] == p[1..] + r;
      if p[0] == Izq {
        ReemplazaCompone(t.izq, p[1..], s, r, u);
      } else {
        ReemplazaCompone(t.der, p[1..], s, r, u);
      }
    }
  }

  /** Seen from a vertex above it, a replacement happens inside that
      vertex's subtree. */
  lemma {:induction false} SubarbolArriba<A>(t: Arbol<A>, q: seq<Dir>, r: seq<Dir>, s: Arbol<A>)
    requires EsPosicion(t, q + r)
    ensures Subarbol(Reemplaza(t, q + r, s), q) == Reemplaza(Subarbol(t, q), r, s)
    decreases |q|
  {
    if q == [] {
      assert q + r == r;
    } else {
      assert (q + r)[1..] == q[1..] + r;
      if q[0] == Izq {
        SubarbolArriba(t.izq, q[1..], r, s);
      } else {
        SubarbolArriba(t.der, q[1..], r, s);
      }
    }
  }

  /** Every proper prefix of a position is a vertex; in particular the
      parent of a position. */
  lemma {:induction false} PadreDePosicion<A>(t: Arbol<A>, q: seq<Dir>, d: Dir)
    requires EsPosicion(t, q + [d])
    ensures EsVertice(t, q)
    decreases |q|
  {
    if q != [] {
      assert (q + [d])[1..] == q[1..] + [d];
      PadreDePosicion(if q[0] == Izq then t.izq else t.der, q[1..], d);
    }
  }

  /** Two replacements at the same position: the second one wins. */
  lemma {:induction false} ReemplazaDosVeces<A>(t: Arbol<A>, p: seq<Dir>, s: Arbol<A>, u: Arbol<A>)
    requires EsPosicion(t, p)
    ensures Reemplaza(Reemplaza(t, p, s), p, u) == Reemplaza(t, p, u)
  {
    ReemplazaCompone(t, p, s, [], u);
    assert p + [] == p;
  }

  /** A replacement keeps the positions above it. */
  lemma {:induction false} PosicionReemplaza<A>(t: Arbol<A>, p: seq<Dir>, s: Arbol<A>, q: seq<Dir>)
    requires EsPosicion(t, p + q)
    ensures EsPosicion(Reemplaza(t, p + q, s), p)
    decreases |p|
  {
    if p != [] {
      assert (p + q)[1..] == p[1..] + q;
      if p[0] == Izq {
        PosicionReemplaza(t.izq, p[1..], s, q);
      } else {
        PosicionReemplaza(t.der, p[1..], s, q);
      }
    }
  }

  /** The in-order elements before the position `p`. */
  function AntesDe<A>(t: Arbol<A>, p: seq<Dir>): seq<int>
    decreases |p|
  {
    if p == [] || t.Vacio? then []
    else if p[0] == Izq then AntesDe(t.izq, p[1..])
    else InOrden(t.izq) + [t.elem] + AntesDe(t.der, p[1..])
  }

  /** The in-order elements after the position `p`. */
  function DespuesDe<A>(t: Arbol<A>, p: seq<Dir>): seq<int>
    decreases |p|
  {
    if p == [] || t.Vacio? then []
    else if p[0] == Izq then DespuesDe(t.izq, p[1..]) + [t.elem] + InOrden(t.der)
    else DespuesDe(t.der, p[1..])
  }

  /** The in-order sequence of a tree is the in-order sequence of the
      subtree at `p` between what comes before and after `p`. */
  lemma {:induction false} InOrdenReemplaza<A>(t: Arbol<A>, p: seq<Dir>, s: Arbol<A>)
    requires EsPosicion(t, p)
    ensures InOrden(Reemplaza(t, p, s)) == AntesDe(t, p) + InOrden(s) + DespuesDe(t, p)
    decreases |p|
  {
    if p == [] {
      assert InOrden(s) == [] + InOrden(s) + [];
    } else if p[0] == Izq {
      var q := p[1..];
      InOrdenReemplaza(t.izq, q, s);
      var a, b := AntesDe(t.izq, q), DespuesDe(t.izq, q);
      ConcatenaIzquierda(a, InOrden(s), b, [t.elem], InOrden(t.der));
    } else {
      var q := p[1..];
      InOrdenReemplaza(t.der, q, s);
      var a, b := AntesDe(t.der, q), DespuesDe(t.der, q);
      ConcatenaDerecha(InOrden(t.izq), [t.elem], a, InOrden(s), b);
    }
  }

  /** Regrouping around a middle block on the left side. */
  lemma {:induction false} ConcatenaIzquierda(a: seq<int>, m: seq<int>, b: seq<int>, e: seq<int>, d: seq<int>)
    ensures (a + m + b) + e + d == a + m + (b + e + d)
  {
  }

  /** Regrouping around a middle block on the right side. */
  lemma {:induction false} ConcatenaDerecha(l: seq<int>, e: seq<int>, a: seq<int>, m: seq<int>, b: seq<int>)
    ensures l + e + (a + m + b) == (l + e + a) + m + b
  {
  }

  /** What comes before and after a position does not depend on what is
      there. */
  lemma {:induction false} AlrededorReemplaza<A>(t: Arbol<A>, p: seq<Dir>, s: Arbol<A>)
    requires EsPosicion(t, p)
    ensures AntesDe(Reemplaza(t, p, s), p) == AntesDe(t, p)
    ensures DespuesDe(Reemplaza(t, p, s), p) == DespuesDe(t, p)
    decreases |p|
  {
    if p != [] {
      if p[0] == Izq {
        AlrededorReemplaza(t.izq, p[1..], s);
      } else {
        AlrededorReemplaza(t.der, p[1..], s);
      }
    }
  }

  /** The in-order sequence of a tree around the subtree at `p`. */
  lemma {:induction false} InOrdenAlrededor<A>(t: Arbol<A>, p: seq<Dir>)
    requires EsPosicion(t, p)
    ensures InOrden(t) == AntesDe(t, p) + InOrden(Subarbol(t, p)) + DespuesDe(t, p)
  {
    InOrdenReemplaza(t, p, Subarbol(t, p));
    ReemplazaMismo(t, p);
  }

  /* ---------- Search ---------- */

  /** `busca` of `ArbolBinario`: the vertex holding `x`, searching the
      whole tree; a null element is never found. The vertex itself is
      checked first, and a match in the left subtree is preferred to one in
      the right. */
  function BuscaEn<A>(t: Arbol<A>, x: Option<int>): (r: Option<seq<Dir>>)
    ensures r.None? <==> x.None? || x.valor !in Elementos(t)
    ensures r.Some? ==> EsVertice(t, r.valor) && Subarbol(t, r.valor).elem == x.valor
    ensures r.Some? && r.valor != [] ==> t.elem != x.valor
    ensures r.Some? && r.valor != [] && r.valor[0] == Der ==> x.valor !in Elementos(t.izq)
  {
    match t
    case Vacio => None
    case Nodo(l, e, _, d) =>
      if x.None? then None
      else if e == x.valor then Some([])
      else
        var b1 := BuscaEn(d, x);
        var b2 := BuscaEn(l, x);
        if b1.None? && b2.None? then None
        else if b2.Some? then
          assert ([Izq] + b2.valor)[1..] == b2.valor;
          Some([Izq] + b2.valor)
        else
          assert ([Der] + b1.valor)[1..] == b1.valor;
          Some([Der] + b1.valor)
  }

  /* ---------- Equality ---------- */

  /** The elements and the shape of a tree, without the per-kind data. */
  function Forma<A>(t: Arbol<A>): Arbol<()>
  {
    match t
    case Vacio => Vacio
    case Nodo(l, e, _, d) => Nodo(Forma(l), e, (), Forma(d))
  }

  /** Vertex equality (`equals(Vertice, Vertice)`): both absent, or equal
      elements and recursively equal subtrees. The per-kind data is not
      compared: two trees are equal exactly when they have the same shape
      and the same elements in the same places. */
  function Iguales<A>(a: Arbol<A>, b: Arbol<A>): (r: bool)
    ensures r <==> Forma(a) == Forma(b)
  {
    if a.Vacio? && b.Vacio? then true
    else if a.Vacio? || b.Vacio? then false
    else if a.elem == b.elem then Iguales(a.izq, b.izq) && Iguales(a.der, b.der)
    else false
  }

  /* ---------- The operations every tree inherits ---------- */

  /** The fields every tree has: the root and the number of elements. */
  class ArbolBinario<A> {
    var raiz: Arbol<A>
    var elementos: int

    /** `elementos` counts the vertices. */
    ghost predicate Valid()
      reads this
    {
      elementos == Tamano(raiz)
    }

    /** An empty tree. */
    constructor()
      ensures Valid() && raiz == Vacio && elementos == 0
    {
      raiz := Vacio;
      elementos := 0;
    }

    /** `altura`: the height of the root, -1 for an empty tree. */
    method Altura() returns (r: int)
      ensures r == AlturaDe(raiz)
      ensures r == -1 <==> raiz.Vacio?
      ensures raiz.Nodo? ==> r == |MasProfundo(raiz)|
    {
      if raiz.Vacio? {
        r := -1;
      } else {
        r := AlturaDe(raiz);
      }
    }

    /** `raiz()`: the root vertex, or NoSuchElementException when the tree
        is empty. */
    method Raiz() returns (r: Resultado<seq<Dir>>)
      ensures r.Falla? <==> raiz.Vacio?
      ensures r.Falla? ==> r.excepcion == SinElemento
      ensures r.Exito? ==> r.valor == [] && EsVertice(raiz, r.valor)
    {
      if raiz.Vacio? {
        return Falla(SinElemento);
      }
      r := Exito([]);
    }

    /** `esVacia`: no root and no elements. */
    method EsVacia() returns (r: bool)
      requires Valid()
      ensures r <==> raiz.Vacio? && elementos == 0
      ensures r <==> Elementos(raiz) == multiset{}
    {
      r := raiz.Vacio? && elementos == 0;
    }

    /** `limpia`: the tree becomes empty. */
    method Limpia()
      modifies this
      ensures Valid() && raiz == Vacio && elementos == 0
    {
      raiz := Vacio;
      elementos := 0;
    }

    /** `contiene`: whether some vertex holds `x`; null is never held. */
    method Contiene(x: Option<int>) returns (r: bool)
      ensures r <==> x.Some? && x.valor in Elementos(raiz)
    {
      r := BuscaEn(raiz, x).Some?;
    }

    /** `busca`: the vertex found by `BuscaEn`. */
    method Busca(x: Option<int>) returns (r: Option<seq<Dir>>)
      ensures r.None? <==> x.None? || x.valor !in Elementos(raiz)
      ensures r.Some? ==> EsVertice(raiz, r.valor) && Subarbol(raiz, r.valor).elem == x.valor
    {
      r := BuscaEn(raiz, x);
    }

    /** `equals`: both empty, or equal roots (vertex equality). */
    method Equals(otro: ArbolBinario<A>) returns (r: bool)
      ensures r <==> Forma(raiz) == Forma(otro.raiz)
    {
      if raiz.Vacio? && otro.raiz.Vacio? {
        return true;
      }
      if raiz.Vacio? || otro.raiz.Vacio? {
        return false;
      }
      r := Iguales(raiz, otro.raiz);
    }
  }
}
