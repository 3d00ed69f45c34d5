/** The depth-first traversals of `ArbolBinarioOrdenado` (`dfsPreOrder`,
    `dfsInOrder`, `dfsPostOrder`) and its in-order iterator, which walks a
    stack of vertices. */
module Recorridos {
  import opened Comun
  import opened Arboles

  /** Which depth-first traversal. */
  datatype Orden = Pre | In | Post

  /** The paths of `r`, each one step `d` further down. */
  function Prefija(d: Dir, r: seq<seq<Dir>>): (s: seq<seq<Dir>>)
    ensures |s| == |r| && forall i :: 0 <= i < |r| ==> s[i] == [d] + r[i]
  {
    seq(|r|, i requires 0 <= i < |r| => [d] + r[i])
  }

  /** The vertices the traversal in order `o` hands to the action, as
      paths from the root, in the order it does so. The source only
      descends into children that exist, so an empty tree gives none. */
  function Visitas<A>(t: Arbol<A>, o: Orden): seq<seq<Dir>>
  {
    match t
    case Vacio => []
    case Nodo(l, _, _, d) =>
      var izq, der := Prefija(Izq, Visitas(l, o)), Prefija(Der, Visitas(d, o));
      match o
      case Pre => [[]] + izq + der
      case In => izq + [[]] + der
      case Post => izq + der + [[]]
  }

  /** The element sequence each traversal is meant to produce. */
  function Secuencia<A>(t: Arbol<A>, o: Orden): seq<int>
  {
    match o
    case Pre => PreOrden(t)
    case In => InOrden(t)
    case Post => PostOrden(t)
  }

  /** The element at a path, where there is a vertex. */
  function ElementoEn<A>(t: Arbol<A>, q: seq<Dir>): int
  {
    if EsVertice(t, q) then Subarbol(t, q).elem else 0
  }

  /** The elements at a sequence of paths. */
  function Etiquetas<A>(t: Arbol<A>, r: seq<seq<Dir>>): (s: seq<int>)
    ensures |s| == |r| && forall i :: 0 <= i < |r| ==> s[i] == ElementoEn(t, r[i])
  {
    seq(|r|, i requires 0 <= i < |r| => ElementoEn(t, r[i]))
  }

  /** No path occurs twice. */
  predicate SinRepetidos(r: seq<seq<Dir>>)
  {
    forall i, j :: 0 <= i < j < |r| ==> r[i] != r[j]
  }

  lemma {:induction false} EnPrefija(d: Dir, r: seq<seq<Dir>>, q: seq<Dir>)
    ensures q in Prefija(d, r) <==> |q| > 0 && q[0] == d && q[1..] in r
  {
    if q in Prefija(d, r) {
      var i :| 0 <= i < |r| && Prefija(d, r)[i] == q;
      assert q[1..] == r[i];
    }
    if |q| > 0 && q[0] == d && q[1..] in r {
      var i :| 0 <= i < |r| && r[i] == q[1..];
      assert Prefija(d, r)[i] == q;
    }
  }

  lemma {:induction false} SinRepetidosPrefija(d: Dir, r: seq<seq<Dir>>)
    requires SinRepetidos(r)
    ensures SinRepetidos(Prefija(d, r))
  {
    var s := Prefija(d, r);
    forall i, j | 0 <= i < j < |s|
      ensures s[i] != s[j]
    {
      assert s[i][1..] == r[i] && s[j][1..] == r[j];
    }
  }

  lemma {:induction false} SinRepetidosConcatena(a: seq<seq<Dir>>, b: seq<seq<Dir>>)
    requires SinRepetidos(a) && SinRepetidos(b)
    requires forall q :: q in a ==> q !in b
    ensures SinRepetidos(a + b)
  {
    var s := a + b;
    forall i, j | 0 <= i < j < |s|
      ensures s[i] != s[j]
    {
      if i < |a| && |a| <= j {
        assert s[i] in a && s[j] == b[j - |a|];
      } else if |a| <= i {
        assert s[i] == b[i - |a|] && s[j] == b[j - |a|];
      }
    }
  }

  /** Every traversal visits exactly the vertices of the tree. */
  lemma {:induction false} VisitasSonVertices<A>(t: Arbol<A>, o: Orden)
    ensures forall q :: q in Visitas(t, o) <==> EsVertice(t, q)
  {
    match t
    case Vacio =>
      forall q
        ensures !EsVertice(t, q)
      {
        SubarbolVacio<A>(q);
      }
    case Nodo(l, _, _, d) =>
      VisitasSonVertices(l, o);
      VisitasSonVertices(d, o);
      var izq, der := Prefija(Izq, Visitas(l, o)), Prefija(Der, Visitas(d, o));
      forall q
        ensures q in Visitas(t, o) <==> EsVertice(t, q)
      {
        EnPrefija(Izq, Visitas(l, o), q);
        EnPrefija(Der, Visitas(d, o), q);
        assert q in Visitas(t, o) <==> q == [] || q in izq || q in der;
      }
  }

  /** Every traversal visits each vertex once, and as many times as the
      tree has vertices. */
  lemma {:induction false} VisitasUnaVez<A>(t: Arbol<A>, o: Orden)
    ensures SinRepetidos(Visitas(t, o))
    ensures |Visitas(t, o)| == Tamano(t)
  {
    match t
    case Vacio =>
    case Nodo(l, _, _, d) =>
      VisitasUnaVez(l, o);
      VisitasUnaVez(d, o);
      var izq, der := Prefija(Izq, Visitas(l, o)), Prefija(Der, Visitas(d, o));
      SinRepetidosPrefija(Izq, Visitas(l, o));
      SinRepetidosPrefija(Der, Visitas(d, o));
      forall q | q in izq
        ensures q !in der && q != []
      {
        EnPrefija(Izq, Visitas(l, o), q);
        EnPrefija(Der, Visitas(d, o), q);
      }
      forall q | q in der
        ensures q != []
      {
        EnPrefija(Der, Visitas(d, o), q);
      }
      var raiz: seq<seq<Dir>> := [[]];
      match o
      case Pre =>
        SinRepetidosConcatena(raiz, izq);
        SinRepetidosConcatena(raiz + izq, der);
      case In =>
        SinRepetidosConcatena(izq, raiz);
        SinRepetidosConcatena(izq + raiz, der);
      case Post =>
        SinRepetidosConcatena(izq, der);
        SinRepetidosConcatena(izq + der, raiz);
  }

  lemma {:induction false} EtiquetasConcatena<A>(t: Arbol<A>, a: seq<seq<Dir>>, b: seq<seq<Dir>>)
    ensures Etiquetas(t, a + b) == Etiquetas(t, a) + Etiquetas(t, b)
  {
  }

  /** Reading the paths one step down is reading the child. */
  lemma {:induction false} EtiquetasPrefija<A>(t: Arbol<A>, d: Dir, r: seq<seq<Dir>>)
    requires t.Nodo?
    ensures Etiquetas(t, Prefija(d, r)) == Etiquetas(if d == Izq then t.izq else t.der, r)
  {
    var h := if d == Izq then t.izq else t.der;
    forall i | 0 <= i < |r|
      ensures ElementoEn(t, [d] + r[i]) == ElementoEn(h, r[i])
    {
      assert ([d] + r[i])[1..] == r[i];
    }
  }

  /** Each traversal hands the elements to the action in its own order:
      pre-order, in-order or post-order. */
  lemma {:induction false} VisitasElementos<A>(t: Arbol<A>, o: Orden)
    ensures Etiquetas(t, Visitas(t, o)) == Secuencia(t, o)
  {
    match t
    case Vacio =>
    case Nodo(l, e, _, d) =>
      VisitasElementos(l, o);
      VisitasElementos(d, o);
      var izq, der := Prefija(Izq, Visitas(l, o)), Prefija(Der, Visitas(d, o));
      var raiz: seq<seq<Dir>> := [[]];
      EtiquetasPrefija(t, Izq, Visitas(l, o));
      EtiquetasPrefija(t, Der, Visitas(d, o));
      assert Etiquetas(t, raiz) == [e];
      match o
      case Pre =>
        EtiquetasConcatena(t, raiz, izq);
        EtiquetasConcatena(t, raiz + izq, der);
      case In =>
        EtiquetasConcatena(t, izq, raiz);
        EtiquetasConcatena(t, izq + raiz, der);
      case Post =>
        EtiquetasConcatena(t, izq, der);
        EtiquetasConcatena(t, izq + der, raiz);
  }

  /* ---------- The in-order iterator ---------- */

  /** What is left to yield from a stack of vertices (top first): each
      vertex's element, then its right subtree in order. */
  function Pendiente<A>(pila: seq<Arbol<A>>): seq<int>
  {
    if pila == [] then []
    else if pila[0].Vacio? then Pendiente(pila[1..])
    else [pila[0].elem] + InOrden(pila[0].der) + Pendiente(pila[1..])
  }

  /** What is left below a vertex on top of the stack: its element, then
      its right subtree, then the rest of the stack. */
  lemma {:induction false} PendienteTope<A>(pila: seq<Arbol<A>>)
    requires pila != [] && pila[0].Nodo?
    ensures Pendiente(pila) == [pila[0].elem] + (InOrden(pila[0].der) + Pendiente(pila[1..]))
  {
  }

  /** The iterator of `ArbolBinarioOrdenado`: a stack of vertices, each one
      still to be yielded, and below the top of the stack its ancestors
      whose left subtrees are being walked. */
  class Iterador<A> {
    var pila: seq<Arbol<A>>

    /** Only vertices are pushed. */
    ghost predicate Valid()
      reads this
    {
      forall i :: 0 <= i < |pila| ==> pila[i].Nodo?
    }

    /** Pushing the left spine of `r` on top of the stack, as the source's
        `while (r != null)` loops do. */
    method MeteEspina(r: Arbol<A>)
      requires Valid()
      modifies this
      ensures Valid()
      ensures Pendiente(pila) == InOrden(r) + old(Pendiente(pila))
    {
      var v := r;
      while v.Nodo?
        invariant Valid()
        invariant InOrden(v) + Pendiente(pila) == InOrden(r) + old(Pendiente(pila))
        decreases v
      {
        assert Pendiente([v] + pila) == [v.elem] + InOrden(v.der) + Pendiente(pila) by {
          assert ([v] + pila)[1..] == pila;
        }
        pila := [v] + pila;
        v := v.izq;
      }
    }

    /** The iterator starts with the left spine of the root stacked, so it
        has the whole in-order sequence still to yield. */
    constructor(t: Arbol<A>)
      ensures Valid() && Pendiente(pila) == InOrden(t)
    {
      pila := [];
      new;
      MeteEspina(t);
    }

    /** `hasNext`: whether the stack is non-empty, which is whether
        anything is left to yield. */
    method HasNext() returns (r: bool)
      requires Valid()
      ensures r <==> Pendiente(pila) != []
    {
      r := pila != [];
    }

    /** `next`: pops a vertex, stacks the left spine of its right child
        and yields its element, the next one in order; on an empty stack
        the pop throws NoSuchElementException. */
    method Next() returns (r: Resultado<int>)
      requires Valid()
      modifies this
      ensures Valid()
      ensures r.Falla? <==> old(Pendiente(pila)) == []
      ensures r.Falla? ==> r.excepcion == SinElemento && pila == old(pila)
      ensures r.Exito? ==> old(Pendiente(pila)) == [r.valor] + Pendiente(pila)
    {
      if pila == [] {
        r := Falla(SinElemento);
      } else {
        var n := pila[0];
        PendienteTope(pila);
        pila := pila[1..];
        MeteEspina(n.der);
        r := Exito(n.elem);
      }
    }
  }
}
