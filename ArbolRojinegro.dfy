/** `ArbolRojinegro`: search trees whose vertices are red or black, with a
    black root, no red vertex with a red child, and the same number of
    black vertices on every path down to an absent child. After the
    search-tree insertion (`rebalanceaAgrega`) and removal
    (`rebalanceaNegro`) the tree is recoloured and rotated back into that
    shape, walking up from the changed vertex.

    A vertex's payload is its colour. The walks are functions on the tree
    and the path of the vertex they are visiting; each visit changes only
    the subtree of a grandparent or parent (the window), and `Contexto`
    says what the rest of the tree asks of the subtree at a path. */
module ArbolesRojinegros {
  import opened Comun
  import opened Arboles
  import opened ArbolesOrdenados

  /* ---------- Colours and the red-black shape ---------- */

  /** `esRojo`: a vertex coloured red; an absent vertex is not red. */
  predicate EsRojo(t: Arbol<Color>)
  {
    t.Nodo? && t.info == Rojo
  }

  /** `esNegro`: an absent vertex, or one coloured black. */
  predicate EsNegro(t: Arbol<Color>)
  {
    t.Vacio? || t.info == Negro
  }

  /** A vertex with its colour set to `c`; an absent vertex stays absent. */
  function Pinta(t: Arbol<Color>, c: Color): (r: Arbol<Color>)
    ensures r.Vacio? <==> t.Vacio?
    ensures InOrden(r) == InOrden(t)
  {
    if t.Vacio? then t else Nodo(t.izq, t.elem, c, t.der)
  }

  /** A vertex with its child on side `d` replaced by `w`. */
  function ConHijo(n: Arbol<Color>, d: Dir, w: Arbol<Color>): (r: Arbol<Color>)
    requires n.Nodo?
    ensures r.Nodo? && r.elem == n.elem && r.info == n.info
    ensures Hijo(r, d) == w && Hijo(r, Otro(d)) == Hijo(n, Otro(d))
    ensures InOrden(w) == InOrden(Hijo(n, d)) ==> InOrden(r) == InOrden(n)
  {
    if d == Izq then Nodo(w, n.elem, n.info, n.der) else Nodo(n.izq, n.elem, n.info, w)
  }

  /** The number of black vertices on the leftmost path down from `t`. In
      a red-black tree every path down gives the same number. */
  function AlturaNegra(t: Arbol<Color>): nat
  {
    match t
    case Vacio => 0
    case Nodo(l, _, c, _) => AlturaNegra(l) + (if c == Negro then 1 else 0)
  }

  /** The shape below the root: every vertex red or black, a red vertex
      has no red child, and both children of every vertex have the same
      black height. */
  predicate RN(t: Arbol<Color>)
  {
    match t
    case Vacio => true
    case Nodo(l, _, c, d) =>
      RN(l) && RN(d) && (c == Rojo || c == Negro)
      && AlturaNegra(l) == AlturaNegra(d)
      && (c == Rojo ==> EsNegro(l) && EsNegro(d))
  }

  /** A red-black tree: the shape below the root, and a black root (or no
      root at all). */
  predicate Rojinegro(t: Arbol<Color>)
  {
    RN(t) && EsNegro(t)
  }

  /** The subtrees of a red-black shape have that shape. */
  lemma {:induction false} SubarbolRN(t: Arbol<Color>, p: seq<Dir>)
    requires RN(t)
    ensures RN(Subarbol(t, p))
    decreases |p|
  {
    if p != [] && t.Nodo? {
      SubarbolRN(Hijo(t, p[0]), p[1..]);
    }
  }

  /* ---------- What the rest of the tree asks of a subtree ---------- */

  /** The black height the whole tree has when the subtree at `q` has
      black height `h`. */
  function AlturaCamino(t: Arbol<Color>, q: seq<Dir>, h: int): int
    decreases |q|
  {
    if q == [] || t.Vacio? then h
    else AlturaCamino(Hijo(t, q[0]), q[1..], h) + (if t.info == Negro then 1 else 0)
  }

  /** Whether the vertex just above position `q` is red. */
  predicate PadreRojo(t: Arbol<Color>, q: seq<Dir>)
    decreases |q|
  {
    if q == [] || t.Vacio? then false
    else if |q| == 1 then t.info == Rojo
    else PadreRojo(Hijo(t, q[0]), q[1..])
  }

  /** Every vertex above `q` is red or black, has a red-black subtree on
      the side away from `q` whose black height matches a black height `h`
      at `q`, and no two of them in a row are red. Any red-black subtree
      of black height `h` put at `q`, black when the vertex above is red,
      then makes the whole tree a red-black shape (`Encaja`). */
  ghost predicate Contexto(t: Arbol<Color>, q: seq<Dir>, h: int)
    decreases |q|
  {
    q == [] ||
    (t.Nodo? && (t.info == Rojo || t.info == Negro)
     && RN(Hijo(t, Otro(q[0])))
     && AlturaNegra(Hijo(t, Otro(q[0]))) == AlturaCamino(Hijo(t, q[0]), q[1..], h)
     && (t.info == Rojo ==> EsNegro(Hijo(t, Otro(q[0]))))
     && (t.info == Rojo && |q| >= 2 ==> EsNegro(Hijo(t, q[0])))
     && Contexto(Hijo(t, q[0]), q[1..], h))
  }

  /** A red-black shape is a context for each of its positions. */
  lemma {:induction false} ContextoDeRN(t: Arbol<Color>, q: seq<Dir>)
    requires RN(t) && EsPosicion(t, q)
    ensures Contexto(t, q, AlturaNegra(Subarbol(t, q)))
    ensures AlturaCamino(t, q, AlturaNegra(Subarbol(t, q))) == AlturaNegra(t)
    ensures PadreRojo(t, q) ==> EsNegro(Subarbol(t, q))
    decreases |q|
  {
    if q != [] {
      ContextoDeRN(Hijo(t, q[0]), q[1..]);
      if |q| >= 2 {
        assert Hijo(t, q[0]).Nodo?;
      }
    }
  }

  /** Putting a fitting subtree at `q` makes the whole tree a red-black
      shape, of the black height the context promises. */
  lemma {:induction false} Encaja(t: Arbol<Color>, q: seq<Dir>, h: int, w: Arbol<Color>)
    requires Contexto(t, q, h) && EsPosicion(t, q)
    requires RN(w) && AlturaNegra(w) == h
    requires PadreRojo(t, q) ==> EsNegro(w)
    ensures RN(Reemplaza(t, q, w))
    ensures AlturaNegra(Reemplaza(t, q, w)) == AlturaCamino(t, q, h)
    decreases |q|
  {
    if q != [] {
      Encaja(Hijo(t, q[0]), q[1..], h, w);
      if |q| >= 2 {
        assert Hijo(t, q[0]).Nodo?;
      }
    }
  }

  /** Replacing the subtree at `q` leaves what is above it alone. */
  lemma {:induction false} ContextoReemplaza(t: Arbol<Color>, q: seq<Dir>, h: int, w: Arbol<Color>)
    requires Contexto(t, q, h) && EsPosicion(t, q)
    ensures Contexto(Reemplaza(t, q, w), q, h)
    ensures AlturaCamino(Reemplaza(t, q, w), q, h) == AlturaCamino(t, q, h)
    ensures PadreRojo(Reemplaza(t, q, w), q) == PadreRojo(t, q)
    decreases |q|
  {
    if q != [] {
      ContextoReemplaza(Hijo(t, q[0]), q[1..], h, w);
      if |q| >= 2 {
        assert Hijo(t, q[0]).Nodo?;
      }
    }
  }

  /** One level up: the context of `q + [d]` is the context of `q`, with
      the vertex at `q` and its other child in order. */
  lemma {:induction false} ContextoSube(t: Arbol<Color>, q: seq<Dir>, d: Dir, h: int)
    requires Contexto(t, q + [d], h) && EsPosicion(t, q + [d])
    ensures EsVertice(t, q)
    ensures var n := Subarbol(t, q);
      && (n.info == Rojo || n.info == Negro)
      && RN(Hijo(n, Otro(d))) && AlturaNegra(Hijo(n, Otro(d))) == h
      && (n.info == Rojo ==> EsNegro(Hijo(n, Otro(d))))
      && Contexto(t, q, h + (if n.info == Negro then 1 else 0))
      && AlturaCamino(t, q, h + (if n.info == Negro then 1 else 0)) == AlturaCamino(t, q + [d], h)
      && PadreRojo(t, q + [d]) == (n.info == Rojo)
      && (PadreRojo(t, q) ==> n.info == Negro)
    decreases |q|
  {
    if q == [] {
      assert [d][1..] == [];
    } else {
      assert (q + [d])[0] == q[0] && (q + [d])[1..] == q[1..] + [d];
      ContextoSube(Hijo(t, q[0]), q[1..], d, h);
      if |q| >= 2 {
        assert Hijo(t, q[0]).Nodo?;
      }
    }
  }

  /* ---------- One visit of a walk ---------- */

  /** What one visit does to its window: the walk ends with the window
      replaced (`Termina`), goes on above with the window replaced
      (`Sube`), or dereferences an absent vertex (`Falla`), where the
      source would throw NullPointerException. */
  datatype Paso = Termina(w: Arbol<Color>) | Sube(w: Arbol<Color>) | Falla

  /** `giraIzquierda` (towards `Izq`) or `giraDerecha` (towards `Der`) at
      the root of a window. */
  function GiraHacia(v: Arbol<Color>, d: Dir): (r: Arbol<Color>)
    requires v.Nodo?
    ensures r.Nodo? && InOrden(r) == InOrden(v)
  {
    if d == Izq then GiroIzquierdo(v, []) else GiroDerecho(v, [])
  }

  /* ---------- Insertion ---------- */

  /** Cases 3 to 5 of `rebalanceaAgrega`, in the window of the grandparent
      `n` of the new red vertex, whose parent (red) hangs on side `dP` and
      which hangs on side `dU` of it. */
  function PasoAgrega(n: Arbol<Color>, dP: Dir, dU: Dir): (r: Paso)
    requires n.Nodo? && Hijo(n, dP).Nodo?
    ensures !r.Falla? && r.w.Nodo?
  {
    var padre := Hijo(n, dP);
    var tio := Hijo(n, Otro(dP));
    if tio.Nodo? && tio.info == Rojo then
      // case 3: parent and uncle black, grandparent red, go on from it
      Sube(ConHijo(ConHijo(Pinta(n, Rojo), dP, Pinta(padre, Negro)), Otro(dP), Pinta(tio, Negro)))
    else
      // case 4: a crossed vertex is turned in line with its parent
      var n1 := if dU != dP then ConHijo(n, dP, GiraHacia(padre, dP)) else n;
      // case 5: the parent (now on side dP) black, the grandparent red and
      // turned away from it
      var n2 := ConHijo(Pinta(n1, Rojo), dP, Pinta(Hijo(n1, dP), Negro));
      Termina(GiraHacia(n2, Otro(dP)))
  }

  /** The window of a visit of `rebalanceaAgrega` past case 2: a black
      grandparent `n`, its red child on side `dP`, and below that on side
      `dU` the red vertex the walk is at; the red vertex, its sibling
      (black) and its uncle are red-black shapes of one black height. */
  ghost predicate VentanaAgrega(n: Arbol<Color>, dP: Dir, dU: Dir, h: int)
  {
    n.Nodo? && n.info == Negro && EsRojo(Hijo(n, dP))
    && var padre := Hijo(n, dP);
    && RN(Hijo(padre, dU)) && EsRojo(Hijo(padre, dU)) && AlturaNegra(Hijo(padre, dU)) == h
    && RN(Hijo(padre, Otro(dU))) && EsNegro(Hijo(padre, Otro(dU)))
    && AlturaNegra(Hijo(padre, Otro(dU))) == h
    && RN(Hijo(n, Otro(dP))) && AlturaNegra(Hijo(n, Otro(dP))) == h
  }

  /** Case 3 leaves a red-black shape with a red root, one black level
      higher, for the walk to go on from. */
  lemma {:induction false} PasoAgregaSube(n: Arbol<Color>, dP: Dir, dU: Dir, h: int)
    requires VentanaAgrega(n, dP, dU, h) && EsRojo(Hijo(n, Otro(dP)))
    ensures PasoAgrega(n, dP, dU).Sube?
    ensures var w := PasoAgrega(n, dP, dU).w;
      RN(w) && EsRojo(w) && AlturaNegra(w) == h + 1 && InOrden(w) == InOrden(n)
  {
  }

  /** Cases 4 and 5 leave a red-black shape with a black root, of the
      window's black height: the walk ends. */
  lemma {:induction false} PasoAgregaTermina(n: Arbol<Color>, dP: Dir, dU: Dir, h: int)
    requires VentanaAgrega(n, dP, dU, h) && !EsRojo(Hijo(n, Otro(dP)))
    ensures PasoAgrega(n, dP, dU).Termina?
    ensures var w := PasoAgrega(n, dP, dU).w;
      RN(w) && w.Nodo? && w.info == Negro && AlturaNegra(w) == h + 1 && InOrden(w) == InOrden(n)
  {
  }

  /** `rebalanceaAgrega` at the red vertex at `p`. Case 1: at the root, the
      vertex turns black. Case 2: under a black parent, nothing is wrong.
      Otherwise the parent is red and, in the source, its parent is
      dereferenced: with no grandparent that throws NullPointerException
      (`None`); with one, cases 3 to 5 work in the grandparent's window,
      and case 3 goes on from the grandparent. */
  function RebalanceaAgrega(t: Arbol<Color>, p: seq<Dir>): Option<Arbol<Color>>
    requires EsVertice(t, p)
    decreases |p|
  {
    if p == [] then Some(Pinta(t, Negro))
    else
      var pp, dU := p[..|p| - 1], p[|p| - 1];
      assert pp + [dU] == p;
      PrefijoVertice(t, pp, [dU]);
      if Subarbol(t, pp).info == Negro then Some(t)
      else if pp == [] then None
      else
        var g, dP := pp[..|pp| - 1], pp[|pp| - 1];
        assert g + [dP] == pp;
        PrefijoVertice(t, g, [dP]);
        SubarbolHijo(t, g, dP);
        var r := PasoAgrega(Subarbol(t, g), dP, dU);
        VerticeEsPosicion(t, g);
        SubarbolReemplaza(t, g, r.w, []);
        assert g + [] == g;
        if r.Sube? then RebalanceaAgrega(Reemplaza(t, g, r.w), g)
        else Some(Reemplaza(t, g, r.w))
  }

  /** Case 2 of `rebalanceaAgrega`: under a black parent the walk ends and
      the tree, already red-black, is left as it is. */
  lemma {:induction false} AgregaPadreNegro(t: Arbol<Color>, p: seq<Dir>)
    requires EsVertice(t, p) && RN(Subarbol(t, p)) && EsRojo(Subarbol(t, p))
    requires Contexto(t, p, AlturaNegra(Subarbol(t, p)))
    requires p != [] && EsNegro(t) && EsNegro(Subarbol(t, p[..|p| - 1]))
    ensures RebalanceaAgrega(t, p) == Some(t)
    ensures Rojinegro(t)
  {
    var s := Subarbol(t, p);
    var h := AlturaNegra(s);
    var pp, dU := p[..|p| - 1], p[|p| - 1];
    assert pp + [dU] == p;
    VerticeEsPosicion(t, p);
    ContextoSube(t, pp, dU, h);
    Encaja(t, p, h, s);
    ReemplazaMismo(t, p);
  }

  /** Under a red parent, `rebalanceaAgrega` works in the window of the
      grandparent at `g`: it replaces the window by `w` and either goes on
      from `g` (`sube`) or ends. */
  lemma {:induction false} AgregaPadreRojo(t: Arbol<Color>, p: seq<Dir>)
      returns (g: seq<Dir>, dP: Dir, dU: Dir, n: Arbol<Color>, w: Arbol<Color>, sube: bool)
    requires EsVertice(t, p) && RN(Subarbol(t, p)) && EsRojo(Subarbol(t, p))
    requires Contexto(t, p, AlturaNegra(Subarbol(t, p)))
    requires p != [] && EsNegro(t) && !EsNegro(Subarbol(t, p[..|p| - 1]))
    ensures |g| < |p| && EsVertice(t, g) && n == Subarbol(t, g)
    ensures VentanaAgrega(n, dP, dU, AlturaNegra(Subarbol(t, p)))
    ensures Contexto(t, g, AlturaNegra(Subarbol(t, p)) + 1)
    ensures w == PasoAgrega(n, dP, dU).w && sube == PasoAgrega(n, dP, dU).Sube?
    ensures EsVertice(Reemplaza(t, g, w), g) && Subarbol(Reemplaza(t, g, w), g) == w
    ensures RebalanceaAgrega(t, p)
      == if sube then RebalanceaAgrega(Reemplaza(t, g, w), g) else Some(Reemplaza(t, g, w))
  {
    var s := Subarbol(t, p);
    var h := AlturaNegra(s);
    var pp := p[..|p| - 1];
    dU := p[|p| - 1];
    assert pp + [dU] == p;
    VerticeEsPosicion(t, p);
    ContextoSube(t, pp, dU, h);
    SubarbolHijo(t, pp, dU);
    g, dP := pp[..|pp| - 1], pp[|pp| - 1];
    assert g + [dP] == pp;
    VerticeEsPosicion(t, pp);
    ContextoSube(t, g, dP, h);
    SubarbolHijo(t, g, dP);
    n := Subarbol(t, g);
    assert VentanaAgrega(n, dP, dU, h);
    var r := PasoAgrega(n, dP, dU);
    w, sube := r.w, r.Sube?;
    VerticeEsPosicion(t, g);
    SubarbolReemplaza(t, g, w, []);
    assert g + [] == g;
  }

  /** One step of `rebalanceaAgrega` from a red vertex below the root:
      either the walk ends in a red-black tree with the same in-order
      sequence, or (`sube`) it goes on from the red grandparent at `g` in a
      tree `t2` with the same in-order sequence that meets the same
      conditions. */
  lemma {:induction false} RebalanceaAgregaPaso(t: Arbol<Color>, p: seq<Dir>)
      returns (t2: Arbol<Color>, g: seq<Dir>, sube: bool)
    requires EsVertice(t, p) && RN(Subarbol(t, p)) && EsRojo(Subarbol(t, p))
    requires Contexto(t, p, AlturaNegra(Subarbol(t, p)))
    requires p != [] && EsNegro(t)
    ensures !sube ==> (RebalanceaAgrega(t, p).Some?
      && Rojinegro(RebalanceaAgrega(t, p).valor) && InOrden(RebalanceaAgrega(t, p).valor) == InOrden(t))
    ensures sube ==> (|g| < |p| && EsVertice(t2, g) && RN(Subarbol(t2, g)) && EsRojo(Subarbol(t2, g))
      && Contexto(t2, g, AlturaNegra(Subarbol(t2, g))) && (g != [] ==> EsNegro(t2))
      && RebalanceaAgrega(t, p) == RebalanceaAgrega(t2, g) && InOrden(t2) == InOrden(t))
  {
    var h := AlturaNegra(Subarbol(t, p));
    t2, g, sube := t, p, false;
    if EsNegro(Subarbol(t, p[..|p| - 1])) {
      AgregaPadreNegro(t, p);
    } else {
      var dP, dU, n, w;
      g, dP, dU, n, w, sube := AgregaPadreRojo(t, p);
      VerticeEsPosicion(t, g);
      ReemplazaInOrdenIgual(t, g, w);
      if EsRojo(Hijo(n, Otro(dP))) {
        PasoAgregaSube(n, dP, dU, h);
        t2 := Reemplaza(t, g, w);
        ContextoReemplaza(t, g, h + 1, w);
      } else {
        PasoAgregaTermina(n, dP, dU, h);
        Encaja(t, g, h + 1, w);
      }
    }
  }

  /** From a red vertex that is a red-black shape in its context, under a
      black root unless it is the root, `rebalanceaAgrega` ends in a
      red-black tree with the same in-order sequence. */
  lemma {:induction false} RebalanceaAgregaCorrecto(t: Arbol<Color>, p: seq<Dir>)
    requires EsVertice(t, p) && RN(Subarbol(t, p)) && EsRojo(Subarbol(t, p))
    requires Contexto(t, p, AlturaNegra(Subarbol(t, p)))
    requires p != [] ==> EsNegro(t)
    ensures RebalanceaAgrega(t, p).Some?
    ensures Rojinegro(RebalanceaAgrega(t, p).valor)
    ensures InOrden(RebalanceaAgrega(t, p).valor) == InOrden(t)
    decreases |p|
  {
    if p != [] {
      var t2, g, sube := RebalanceaAgregaPaso(t, p);
      if sube {
        RebalanceaAgregaCorrecto(t2, g);
      }
    }
  }

  /** `agrega` of a red-black tree: the search tree's insertion of a leaf,
      coloured red, then `rebalanceaAgrega` from it. */
  function AgregaRN(t: Arbol<Color>, x: int): Option<Arbol<Color>>
  {
    AgregaHojaEnHueco(t, x, Rojo);
    RebalanceaAgrega(AgregaHoja(t, x, Rojo), Hueco(t, x))
  }

  /** `agrega` keeps a red-black tree red-black, with the in-order sequence
      of the plain search-tree insertion. */
  lemma {:induction false} AgregaRNCorrecto(t: Arbol<Color>, x: int)
    requires Rojinegro(t)
    ensures AgregaRN(t, x).Some?
    ensures Rojinegro(AgregaRN(t, x).valor)
    ensures InOrden(AgregaRN(t, x).valor) == InOrden(AgregaHoja(t, x, Rojo))
  {
    var p := Hueco(t, x);
    var hoja := Nodo(Vacio, x, Rojo, Vacio);
    AgregaHojaEnHueco(t, x, Rojo);
    ContextoDeRN(t, p);
    ContextoReemplaza(t, p, 0, hoja);
    RebalanceaAgregaCorrecto(AgregaHoja(t, x, Rojo), p);
  }

  /* ---------- Removal ---------- */

  /** Cases 3 to 6 of `rebalanceaNegro`, in the window of the parent `nv`
      of the vertex F on side `d` that is short of one black vertex. An
      absent sibling is dereferenced (`Falla`). Case 3: all black around
      a black parent, the sibling turns red and the walk goes on from the
      parent; case 4: the same under a red parent, which turns black
      instead. Case 5: the near nephew is red and the far one black, the
      sibling is turned away from F. Case 6: the sibling takes the
      parent's colour, the parent and the far nephew turn black, and the
      parent is turned towards F. */
  function RestoNegro(nv: Arbol<Color>, d: Dir): (r: Paso)
    requires nv.Nodo?
    ensures nv.info == Rojo ==> !r.Sube?
  {
    var s := Hijo(nv, Otro(d));
    if s.Vacio? then Paso.Falla
    else if EsNegro(s) && EsNegro(s.izq) && EsNegro(s.der) then
      if EsNegro(nv) then Sube(ConHijo(nv, Otro(d), Pinta(s, Rojo)))
      else Termina(ConHijo(Pinta(nv, Negro), Otro(d), Pinta(s, Rojo)))
    else
      var caso5 := (EsRojo(s.izq) && EsNegro(s.der) && d == Izq)
                   || (EsRojo(s.der) && EsNegro(s.izq) && d == Der);
      Termina(Caso6(if caso5 then Caso5(nv, d) else nv, d))
  }

  /** Case 5: the red nephew turns black, the sibling red, and the sibling
      is turned away from F. */
  function Caso5(nv: Arbol<Color>, d: Dir): (r: Arbol<Color>)
    requires nv.Nodo? && Hijo(nv, Otro(d)).Nodo?
    ensures r.Nodo? && r.info == nv.info && Hijo(r, Otro(d)).Nodo?
  {
    var s := Hijo(nv, Otro(d));
    var s1 := if EsRojo(s.izq) then Nodo(Pinta(s.izq, Negro), s.elem, Rojo, s.der)
              else Nodo(s.izq, s.elem, Rojo, Pinta(s.der, Negro));
    ConHijo(nv, Otro(d), GiraHacia(s1, Otro(d)))
  }

  /** Case 6: the sibling takes the parent's colour, the parent and the
      far nephew turn black, and the parent is turned towards F. */
  function Caso6(nv: Arbol<Color>, d: Dir): (r: Arbol<Color>)
    requires nv.Nodo? && Hijo(nv, Otro(d)).Nodo?
    ensures r.Nodo?
  {
    var s := Hijo(nv, Otro(d));
    var s1 := ConHijo(Pinta(s, nv.info), Otro(d), Pinta(Hijo(s, Otro(d)), Negro));
    GiraHacia(ConHijo(Pinta(nv, Negro), Otro(d), s1), d)
  }

  /** One visit of `rebalanceaNegro` in the window of F's parent `n`.
      Case 2: a red sibling turns black, the parent red, and the parent is
      turned towards F; F keeps its parent, now one level down, where
      cases 3 to 6 follow (the parent being red, case 3 cannot go on from
      it). */
  function PasoNegro(n: Arbol<Color>, d: Dir): (r: Paso)
    requires n.Nodo?
    ensures !r.Falla? ==> r.w.Nodo?
  {
    var s := Hijo(n, Otro(d));
    if EsRojo(s) then
      var m := GiraHacia(ConHijo(Pinta(n, Rojo), Otro(d), Pinta(s, Negro)), d);
      var r := RestoNegro(Hijo(m, d), d);
      if r.Termina? then Termina(ConHijo(m, d, r.w)) else Paso.Falla
    else RestoNegro(n, d)
  }

  /** The window of `rebalanceaNegro`: the parent `n` of F (on side `d`),
      F a black red-black shape of black height `b`, one short of its
      sibling's. */
  ghost predicate VentanaNegro(n: Arbol<Color>, d: Dir, b: int)
  {
    n.Nodo? && (n.info == Rojo || n.info == Negro)
    && RN(Hijo(n, d)) && EsNegro(Hijo(n, d)) && AlturaNegra(Hijo(n, d)) == b
    && RN(Hijo(n, Otro(d))) && AlturaNegra(Hijo(n, Otro(d))) == b + 1
    && (n.info == Rojo ==> EsNegro(Hijo(n, Otro(d))))
  }

  /** Cases 3 and 4: a black sibling with black children. */
  lemma {:induction false} RestoNegroHermanoNegro(nv: Arbol<Color>, d: Dir, b: int)
    requires VentanaNegro(nv, d, b) && EsNegro(Hijo(nv, Otro(d)))
    requires var s := Hijo(nv, Otro(d)); s.Nodo? && EsNegro(s.izq) && EsNegro(s.der)
    ensures var r := RestoNegro(nv, d);
      && (r.Sube? ==> nv.info == Negro && RN(r.w) && EsNegro(r.w) && AlturaNegra(r.w) == b + 1)
      && (r.Termina? ==> nv.info == Rojo && RN(r.w) && !EsRojo(r.w) && AlturaNegra(r.w) == b + 1)
      && !r.Falla? && InOrden(r.w) == InOrden(nv)
  {
  }

  /** Case 5 leaves the window as it was, with a black sibling whose far
      child is red. */
  lemma {:induction false} Caso5Correcto(nv: Arbol<Color>, d: Dir, b: int)
    requires VentanaNegro(nv, d, b) && EsNegro(Hijo(nv, Otro(d))) && Hijo(nv, Otro(d)).Nodo?
    requires var s := Hijo(nv, Otro(d)); EsRojo(Hijo(s, d)) && EsNegro(Hijo(s, Otro(d)))
    ensures var r := Caso5(nv, d);
      VentanaNegro(r, d, b) && InOrden(r) == InOrden(nv) && EsNegro(Hijo(r, Otro(d)))
      && EsRojo(Hijo(Hijo(r, Otro(d)), Otro(d)))
  {
    var s := Hijo(nv, Otro(d));
    var a := Hijo(s, d);
    var x := Hijo(s, Otro(d));
    assert RN(s.izq) && RN(s.der) && AlturaNegra(s.izq) == AlturaNegra(s.der) == AlturaNegra(s) - 1;
    assert RN(a) && RN(x) && AlturaNegra(a) == AlturaNegra(x) == b;
    assert RN(a.izq) && RN(a.der) && EsNegro(a.izq) && EsNegro(a.der);
    assert AlturaNegra(a.izq) == AlturaNegra(a.der) == b;
    if d == Izq {
      var interior := Nodo(a.der, s.elem, Rojo, x);
      assert RN(interior) && AlturaNegra(interior) == b;
      assert RN(Nodo(a.izq, a.elem, Negro, interior));
      assert Caso5(nv, d) == Nodo(nv.izq, nv.elem, nv.info, Nodo(a.izq, a.elem, Negro, Nodo(a.der, s.elem, Rojo, s.der)));
    } else {
      var interior := Nodo(x, s.elem, Rojo, a.izq);
      assert RN(interior) && AlturaNegra(interior) == b;
      assert RN(Nodo(interior, a.elem, Negro, a.der));
      assert Caso5(nv, d) == Nodo(Nodo(Nodo(s.izq, s.elem, Rojo, a.izq), a.elem, Negro, a.der), nv.elem, nv.info, nv.der);
    }
  }

  /** Case 6 ends the walk: a red-black shape with the window's black
      height plus the black F lacked, red only where the parent was. */
  lemma {:induction false} Caso6Correcto(nv: Arbol<Color>, d: Dir, b: int)
    requires VentanaNegro(nv, d, b) && EsNegro(Hijo(nv, Otro(d))) && Hijo(nv, Otro(d)).Nodo?
    requires EsRojo(Hijo(Hijo(nv, Otro(d)), Otro(d)))
    ensures var r := Caso6(nv, d);
      RN(r) && InOrden(r) == InOrden(nv)
      && AlturaNegra(r) == b + 1 + (if nv.info == Negro then 1 else 0)
      && (EsRojo(r) ==> nv.info == Rojo)
  {
    var s := Hijo(nv, Otro(d));
    var x := Hijo(s, Otro(d));
    var a := Hijo(s, d);
    assert RN(s.izq) && RN(s.der) && AlturaNegra(s.izq) == AlturaNegra(s.der) == AlturaNegra(s) - 1;
    assert RN(a) && RN(x) && AlturaNegra(a) == AlturaNegra(x) == b;
    assert RN(x.izq) && RN(x.der) && AlturaNegra(x.izq) == AlturaNegra(x.der) == b;
    if d == Izq {
      assert RN(Nodo(nv.izq, nv.elem, Negro, s.izq));
      assert RN(Nodo(x.izq, x.elem, Negro, x.der));
      assert Caso6(nv, d) == Nodo(Nodo(nv.izq, nv.elem, Negro, s.izq), s.elem, nv.info, Nodo(x.izq, x.elem, Negro, x.der));
    } else {
      assert Caso6(nv, d) == Nodo(Nodo(x.izq, x.elem, Negro, x.der), s.elem, nv.info, Nodo(s.der, nv.elem, Negro, nv.der));
    }
  }

  /** Cases 5 and 6: a black sibling with a red child. */
  lemma {:induction false} RestoNegroSobrinoRojo(nv: Arbol<Color>, d: Dir, b: int)
    requires VentanaNegro(nv, d, b) && EsNegro(Hijo(nv, Otro(d)))
    requires var s := Hijo(nv, Otro(d)); s.Nodo? && (EsRojo(s.izq) || EsRojo(s.der))
    ensures var r := RestoNegro(nv, d);
      && r.Termina? && RN(r.w) && InOrden(r.w) == InOrden(nv)
      && AlturaNegra(r.w) == b + 1 + (if nv.info == Negro then 1 else 0)
      && (EsRojo(r.w) ==> nv.info == Rojo)
  {
    var s := Hijo(nv, Otro(d));
    assert RN(s.izq) && RN(s.der);
    assert !(EsNegro(s.izq) && EsNegro(s.der));
    if EsRojo(Hijo(s, d)) && EsNegro(Hijo(s, Otro(d))) {
      Caso5Correcto(nv, d, b);
      Caso6Correcto(Caso5(nv, d), d, b);
    } else {
      Caso6Correcto(nv, d, b);
    }
  }

  /** Cases 3 to 6 under a black sibling. */
  lemma {:induction false} RestoNegroCorrecto(nv: Arbol<Color>, d: Dir, b: int)
    requires VentanaNegro(nv, d, b) && EsNegro(Hijo(nv, Otro(d)))
    ensures var r := RestoNegro(nv, d);
      && !r.Falla? && InOrden(r.w) == InOrden(nv) && RN(r.w)
      && (r.Sube? ==> nv.info == Negro && EsNegro(r.w) && AlturaNegra(r.w) == b + 1)
      && (r.Termina? ==> AlturaNegra(r.w) == b + 1 + (if nv.info == Negro then 1 else 0)
                         && (EsRojo(r.w) ==> nv.info == Rojo))
  {
    var s := Hijo(nv, Otro(d));
    if EsNegro(s.izq) && EsNegro(s.der) {
      RestoNegroHermanoNegro(nv, d, b);
    } else {
      assert RN(s.izq) && RN(s.der);
      RestoNegroSobrinoRojo(nv, d, b);
    }
  }

  /** One step of `rebalanceaNegro` never dereferences an absent vertex,
      keeps the in-order sequence, and either ends the walk with a
      red-black shape that has regained the missing black, or (case 3)
      passes the lack of one black up to a black parent. */
  lemma {:induction false} PasoNegroCorrecto(n: Arbol<Color>, d: Dir, b: int)
    requires VentanaNegro(n, d, b)
    ensures var r := PasoNegro(n, d);
      && !r.Falla? && InOrden(r.w) == InOrden(n) && RN(r.w)
      && (r.Sube? ==> n.info == Negro && EsNegro(r.w) && AlturaNegra(r.w) == b + 1)
      && (r.Termina? ==> AlturaNegra(r.w) == b + 1 + (if n.info == Negro then 1 else 0)
                         && (EsRojo(r.w) ==> n.info == Rojo))
  {
    var s := Hijo(n, Otro(d));
    if EsRojo(s) {
      var F := Hijo(n, d);
      var c := Hijo(s, d);
      assert RN(s.izq) && RN(s.der) && EsNegro(s.izq) && EsNegro(s.der);
      assert AlturaNegra(s.izq) == AlturaNegra(s.der) == b + 1;
      var nv := Nodo(if d == Izq then F else c, n.elem, Rojo, if d == Izq then c else F);
      var m := GiraHacia(ConHijo(Pinta(n, Rojo), Otro(d), Pinta(s, Negro)), d);
      if d == Izq {
        assert m == Nodo(nv, s.elem, Negro, s.der);
      } else {
        assert m == Nodo(s.izq, s.elem, Negro, nv);
      }
      assert Hijo(m, d) == nv;
      assert VentanaNegro(nv, d, b);
      RestoNegroCorrecto(nv, d, b);
    } else {
      RestoNegroCorrecto(n, d, b);
    }
  }

  /** `rebalanceaNegro` from the position `q` of the black vertex F that
      is one black short: at the root (case 1) nothing is left to do;
      otherwise one step in the parent's window, and case 3 goes on from
      the parent. */
  function RebalanceaNegro(t: Arbol<Color>, q: seq<Dir>): Option<Arbol<Color>>
    requires EsPosicion(t, q)
    decreases |q|
  {
    if q == [] then Some(t)
    else
      var pp, d := q[..|q| - 1], q[|q| - 1];
      assert pp + [d] == q;
      PadreDePosicion(t, pp, d);
      match PasoNegro(Subarbol(t, pp), d)
      case Falla => None
      case Termina(w) => Some(Reemplaza(t, pp, w))
      case Sube(w) =>
        VerticeEsPosicion(t, pp);
        assert pp + [] == pp;
        PosicionReemplaza(t, pp, w, []);
        RebalanceaNegro(Reemplaza(t, pp, w), pp)
  }

  /** The state `rebalanceaNegro` works from: the black vertex F at `q`
      is a red-black shape one black short of what its context expects,
      under a black root. */
  ghost predicate FaltaNegro(t: Arbol<Color>, q: seq<Dir>)
  {
    EsPosicion(t, q) && RN(Subarbol(t, q)) && EsNegro(Subarbol(t, q))
    && Contexto(t, q, AlturaNegra(Subarbol(t, q)) + 1)
    && EsNegro(t)
  }

  /** One step of `rebalanceaNegro` in the parent's window, seen on the
      whole tree: it ends with a red-black tree, or leaves the parent one
      black short. */
  lemma {:induction false} PasoNegroEnArbol(t: Arbol<Color>, pp: seq<Dir>, d: Dir)
    requires FaltaNegro(t, pp + [d])
    ensures EsVertice(t, pp)
    ensures var r := PasoNegro(Subarbol(t, pp), d);
      && !r.Falla? && InOrden(Reemplaza(t, pp, r.w)) == InOrden(t)
      && (r.Termina? ==> Rojinegro(Reemplaza(t, pp, r.w)))
      && (r.Sube? ==> FaltaNegro(Reemplaza(t, pp, r.w), pp))
  {
    var F := Subarbol(t, pp + [d]);
    var b := AlturaNegra(F);
    ContextoSube(t, pp, d, b + 1);
    SubarbolHijo(t, pp, d);
    var n := Subarbol(t, pp);
    assert VentanaNegro(n, d, b);
    PasoNegroCorrecto(n, d, b);
    VerticeEsPosicion(t, pp);
    var w := PasoNegro(n, d).w;
    var h := b + 1 + (if n.info == Negro then 1 else 0);
    ReemplazaInOrdenIgual(t, pp, w);
    if PasoNegro(n, d).Termina? {
      Encaja(t, pp, h, w);
    } else {
      ContextoReemplaza(t, pp, h, w);
      assert pp + [] == pp;
      SubarbolReemplaza(t, pp, w, []);
      PosicionReemplaza(t, pp, w, []);
    }
  }

  /** From a black F one black short of what its context expects,
      `rebalanceaNegro` never dereferences an absent vertex and leaves a
      red-black tree with the same in-order sequence. */
  lemma {:induction false} RebalanceaNegroCorrecto(t: Arbol<Color>, q: seq<Dir>)
    requires FaltaNegro(t, q)
    ensures RebalanceaNegro(t, q).Some?
    ensures Rojinegro(RebalanceaNegro(t, q).valor)
    ensures InOrden(RebalanceaNegro(t, q).valor) == InOrden(t)
    decreases |q|
  {
    if q != [] {
      var pp, d := q[..|q| - 1], q[|q| - 1];
      assert pp + [d] == q;
      PasoNegroEnArbol(t, pp, d);
      var r := PasoNegro(Subarbol(t, pp), d);
      if r.Sube? {
        RebalanceaNegroCorrecto(Reemplaza(t, pp, r.w), pp);
      }
    }
  }

  /** Putting in place of a subtree a red-black shape of the same black
      height and the same colour at the top keeps a red-black shape, its
      black height and the colour of its root. */
  lemma {:induction false} RNReemplazaIgual(t: Arbol<Color>, p: seq<Dir>, s: Arbol<Color>)
    requires RN(t) && EsPosicion(t, p) && RN(s)
    requires AlturaNegra(s) == AlturaNegra(Subarbol(t, p))
    requires EsNegro(s) == EsNegro(Subarbol(t, p))
    ensures var t2 := Reemplaza(t, p, s);
      RN(t2) && AlturaNegra(t2) == AlturaNegra(t) && EsNegro(t2) == EsNegro(t)
  {
    ContextoDeRN(t, p);
    Encaja(t, p, AlturaNegra(s), s);
  }

  /** The vertex `elimina` takes out: the one holding the element, or,
      when it has a left child, the one `intercambiaEliminable` swaps it
      with (the source swaps whenever there is a left child, not only
      when there are two). */
  function EliminableRN(t: Arbol<Color>, p: seq<Dir>): (r: (Arbol<Color>, seq<Dir>))
    requires EsVertice(t, p)
    ensures EsVertice(r.0, r.1)
    ensures Subarbol(r.0, r.1).izq.Vacio? || Subarbol(r.0, r.1).der.Vacio?
  {
    if Subarbol(t, p).izq.Nodo? then
      IntercambiaEliminableCorrecto(t, p);
      IntercambiaEliminable(t, p)
    else (t, p)
  }

  /** The swap only moves elements: the colours stay where they are, so a
      red-black tree stays one. */
  lemma {:induction false} EliminableRNRojinegro(t: Arbol<Color>, p: seq<Dir>)
    requires EsVertice(t, p) && Rojinegro(t)
    ensures Rojinegro(EliminableRN(t, p).0)
  {
    var v := Subarbol(t, p);
    if v.izq.Nodo? {
      var k := MaximoEn(v.izq);
      var m := Subarbol(v.izq, k);
      var m1 := Nodo(m.izq, v.elem, m.info, m.der);
      var l1 := Reemplaza(v.izq, k, m1);
      var v2 := Nodo(l1, m.elem, v.info, v.der);
      VerticeEsPosicion(t, p);
      SubarbolRN(t, p);
      SubarbolRN(v.izq, k);
      VerticeEsPosicion(v.izq, k);
      RNReemplazaIgual(v.izq, k, m1);
      RNReemplazaIgual(t, p, v2);
    }
  }

  /** With a left child, the detached vertex is that subtree's maximum,
      which takes the element's place in the in-order sequence. */
  lemma {:induction false} EliminableRNInOrdenIzquierdo(t: Arbol<Color>, p: seq<Dir>)
    requires EsVertice(t, p) && Subarbol(t, p).izq.Nodo?
    ensures var (t1, q) := EliminableRN(t, p);
      InOrden(Reemplaza(t1, q, HijoUnico(Subarbol(t1, q)))) == InOrden(Quita(t, p))
  {
    var v := Subarbol(t, p);
    var k := MaximoEn(v.izq);
    var m := Subarbol(v.izq, k);
    VerticeEsPosicion(t, p);
    IntercambiaEliminableCorrecto(t, p);
    DesprendeIntercambiado(t, p);
    QuitaMaximoInOrden(v.izq);
    var v3 := Nodo(Reemplaza(v.izq, k, m.izq), m.elem, v.info, v.der);
    assert InOrden(v3) == InOrden(v.izq) + InOrden(v.der);
    InOrdenReemplaza(t, p, v3);
    assert Tamano(t) != 1 by {
      if p != [] { ElementoDeVertice(t, p); }
      assert Tamano(t) >= 2;
    }
    EliminaEnInOrden(t, p);
  }

  /** Detaching the vertex `elimina` takes out leaves the in-order
      sequence of the search tree's removal. */
  lemma {:induction false} EliminableRNInOrden(t: Arbol<Color>, p: seq<Dir>)
    requires EsVertice(t, p)
    ensures var (t1, q) := EliminableRN(t, p);
      InOrden(Reemplaza(t1, q, HijoUnico(Subarbol(t1, q)))) == InOrden(Quita(t, p))
  {
    var v := Subarbol(t, p);
    if v.izq.Nodo? {
      EliminableRNInOrdenIzquierdo(t, p);
    } else if Tamano(t) == 1 && p != [] {
      SubarbolVacio<Color>(p[1..]);
    } else if Tamano(t) != 1 && p == [] && v.der.Vacio? {
      TamanoHoja(t);
    }
  }

  /** `elimina` at the vertex `p` holding the element: the vertex taken
      out is replaced by its only child h, where a vertex without children
      gets a black phantom child, here the empty position that remains.
      When both it and h are black, `rebalanceaNegro` from h; otherwise h
      turns black. Removing the phantom afterwards leaves the tree as it
      is here. */
  function EliminaRN(t: Arbol<Color>, p: seq<Dir>): Option<Arbol<Color>>
    requires EsVertice(t, p)
  {
    var (t1, q) := EliminableRN(t, p);
    var u := Subarbol(t1, q);
    var h := HijoUnico(u);
    var t2 := Reemplaza(t1, q, h);
    ReemplazaVertice(t1, q, h);
    if EsNegro(u) && EsNegro(h) then RebalanceaNegro(t2, q)
    else Some(Reemplaza(t2, q, Pinta(h, Negro)))
  }

  /** The vertex taken out has at most one child, so its black height is
      that child's, plus one when it is black; a red one has no child at
      all, and a black one with a black child has none either. */
  lemma {:induction false} HijoUnicoRN(u: Arbol<Color>)
    requires u.Nodo? && RN(u) && (u.izq.Vacio? || u.der.Vacio?)
    ensures RN(HijoUnico(u))
    ensures AlturaNegra(HijoUnico(u)) == 0
    ensures EsNegro(u) && EsNegro(HijoUnico(u)) ==> HijoUnico(u).Vacio?
    ensures EsRojo(u) ==> HijoUnico(u).Vacio?
  {
  }

  /** Taking out a black vertex whose only child h is black (so empty)
      leaves h one black short, under a black root. */
  lemma {:induction false} DesprendeNegro(t1: Arbol<Color>, q: seq<Dir>)
    requires Rojinegro(t1) && EsVertice(t1, q)
    requires Subarbol(t1, q).izq.Vacio? || Subarbol(t1, q).der.Vacio?
    requires EsNegro(Subarbol(t1, q)) && EsNegro(HijoUnico(Subarbol(t1, q)))
    ensures FaltaNegro(Reemplaza(t1, q, HijoUnico(Subarbol(t1, q))), q)
  {
    var u := Subarbol(t1, q);
    var h := HijoUnico(u);
    VerticeEsPosicion(t1, q);
    SubarbolRN(t1, q);
    HijoUnicoRN(u);
    ReemplazaVertice(t1, q, h);
    ContextoDeRN(t1, q);
    assert q + [] == q;
    SubarbolReemplaza(t1, q, h, []);
    ContextoReemplaza(t1, q, 1, h);
  }

  /** Otherwise the vertex taken out or its child is red: painting the
      child black restores a red-black tree, with the same in-order
      sequence. */
  lemma {:induction false} DesprendeRojo(t1: Arbol<Color>, q: seq<Dir>)
    requires Rojinegro(t1) && EsVertice(t1, q)
    requires Subarbol(t1, q).izq.Vacio? || Subarbol(t1, q).der.Vacio?
    requires !(EsNegro(Subarbol(t1, q)) && EsNegro(HijoUnico(Subarbol(t1, q))))
    ensures var t2 := Reemplaza(t1, q, HijoUnico(Subarbol(t1, q)));
      EsPosicion(t2, q)
      && Rojinegro(Reemplaza(t2, q, Pinta(HijoUnico(Subarbol(t1, q)), Negro)))
      && InOrden(Reemplaza(t2, q, Pinta(HijoUnico(Subarbol(t1, q)), Negro))) == InOrden(t2)
  {
    var u := Subarbol(t1, q);
    var h := HijoUnico(u);
    var t2 := Reemplaza(t1, q, h);
    var w := Pinta(h, Negro);
    VerticeEsPosicion(t1, q);
    SubarbolRN(t1, q);
    HijoUnicoRN(u);
    ReemplazaVertice(t1, q, h);
    ContextoDeRN(t1, q);
    assert q + [] == q;
    SubarbolReemplaza(t1, q, h, []);
    ReemplazaDosVeces(t1, q, h, w);
    Encaja(t1, q, AlturaNegra(u), w);
    ReemplazaInOrdenIgual(t2, q, w);
  }

  /** `elimina` keeps a red-black tree red-black, with the in-order
      sequence of the plain search-tree removal. */
  lemma {:induction false} EliminaRNCorrecto(t: Arbol<Color>, p: seq<Dir>)
    requires Rojinegro(t) && EsVertice(t, p)
    ensures EliminaRN(t, p).Some?
    ensures Rojinegro(EliminaRN(t, p).valor)
    ensures InOrden(EliminaRN(t, p).valor) == InOrden(Quita(t, p))
  {
    var (t1, q) := EliminableRN(t, p);
    var u := Subarbol(t1, q);
    var h := HijoUnico(u);
    EliminableRNRojinegro(t, p);
    EliminableRNInOrden(t, p);
    if EsNegro(u) && EsNegro(h) {
      DesprendeNegro(t1, q);
      RebalanceaNegroCorrecto(Reemplaza(t1, q, h), q);
    } else {
      DesprendeRojo(t1, q);
    }
  }

  /** On a red-black search tree, `elimina` at a vertex leaves a red-black
      search tree with one vertex fewer and that vertex's element gone. */
  lemma {:induction false} EliminaRNValido(t: Arbol<Color>, p: seq<Dir>)
    requires Rojinegro(t) && Ordenado(t) && EsVertice(t, p)
    ensures EliminaRN(t, p).Some?
    ensures var r := EliminaRN(t, p).valor;
      Rojinegro(r) && Ordenado(r) && Tamano(r) == Tamano(t) - 1
      && Elementos(r) == Elementos(t) - multiset{Subarbol(t, p).elem}
  {
    EliminaRNCorrecto(t, p);
    QuitaCorrecto(t, p);
    MismoInOrden(EliminaRN(t, p).valor, Quita(t, p));
  }

  /* ---------- Equality ---------- */

  /** `equals` of two red-black trees as written: empty roots compare
      directly; otherwise `VerticeRojinegro.equals` compares the colours of
      the two roots and then hands over to the plain vertex equality, which
      recurses without looking at colours again. */
  function IgualesRNComoEscrito(a: Arbol<Color>, b: Arbol<Color>): (r: bool)
    ensures r ==> Forma(a) == Forma(b)
    ensures r && a.Nodo? ==> a.info == b.info
  {
    if a.Vacio? || b.Vacio? then Iguales(a, b)
    else a.info == b.info && Iguales(a, b)
  }

  /** The three-vertex search tree with 2 at a black root and 1 and 3 as
      its children, both coloured `c`. */
  function TresVertices(c: Color): Arbol<Color>
  {
    Nodo(Nodo(Vacio, 1, c, Vacio), 2, Negro, Nodo(Vacio, 3, c, Vacio))
  }

  /** With red or with black children it is a red-black search tree. */
  lemma {:induction false} TresVerticesRojinegro(c: Color)
    requires c == Rojo || c == Negro
    ensures Rojinegro(TresVertices(c)) && Ordenado(TresVertices(c))
  {
    var t := TresVertices(c);
    assert Elementos(t.izq) == multiset{1} && Elementos(t.der) == multiset{3};
    assert RN(t.izq) && RN(t.der) && Ordenado(t.izq) && Ordenado(t.der);
  }

  /** Two red-black trees with the same elements in the same places that
      differ in colour below the root (inserting 2, 1, 3; and inserting
      2, 1, 3, 4 then removing 4): the comparison as written calls them
      equal. */
  lemma {:induction false} IgualesRNIgnoraColores()
    ensures var a := Nodo(Nodo(Vacio, 1, Rojo, Vacio), 2, Negro, Nodo(Vacio, 3, Rojo, Vacio));
      var b := Nodo(Nodo(Vacio, 1, Negro, Vacio), 2, Negro, Nodo(Vacio, 3, Negro, Vacio));
      Rojinegro(a) && Rojinegro(b) && Ordenado(a) && Ordenado(b)
      && IgualesRNComoEscrito(a, b) && a != b
  {
    var a, b := TresVertices(Rojo), TresVertices(Negro);
    TresVerticesRojinegro(Rojo);
    TresVerticesRojinegro(Negro);
    assert Iguales(a.izq, b.izq) && Iguales(a.der, b.der);
    assert a.izq != b.izq;
  }

  /** The comparison the documentation of `VerticeRojinegro.equals`
      describes: elements, colours and both subtrees, recursively. It holds
      exactly when the two trees are the same. */
  function IgualesRN(a: Arbol<Color>, b: Arbol<Color>): (r: bool)
    ensures r <==> a == b
  {
    if a.Vacio? || b.Vacio? then a.Vacio? && b.Vacio?
    else a.elem == b.elem && a.info == b.info && IgualesRN(a.izq, b.izq) && IgualesRN(a.der, b.der)
  }

  /* ---------- The class ---------- */

  /** A red-black tree: a search tree whose vertices carry a colour. */
  class ArbolRojinegro {
    var raiz: Arbol<Color>
    var elementos: int

    /** The count is right, the tree is a search tree, and it is
        red-black. */
    ghost predicate Valid()
      reads this
    {
      elementos == Tamano(raiz) && Ordenado(raiz) && Rojinegro(raiz)
    }

    /** An empty tree. */
    constructor()
      ensures Valid() && raiz == Vacio && elementos == 0
    {
      raiz := Vacio;
      elementos := 0;
    }

    /** `getColor`: the colour of a vertex, red or black in a valid tree,
        and black at the root. */
    method GetColor(p: seq<Dir>) returns (c: Color)
      requires Valid() && EsVertice(raiz, p)
      ensures c == Subarbol(raiz, p).info
      ensures c == Rojo || c == Negro
      ensures p == [] ==> c == Negro
    {
      VerticeEsPosicion(raiz, p);
      SubarbolRN(raiz, p);
      c := Subarbol(raiz, p).info;
    }

    /** `agrega`: the search-tree insertion (null refused with
        IllegalArgumentException), the new leaf coloured red, then
        `rebalanceaAgrega` from it. */
    method Agrega(x: Option<int>) returns (s: Salida)
      requires Valid()
      modifies this
      ensures Valid()
      ensures x.None? ==> (s == Lanza(ArgumentoIlegal) && raiz == old(raiz)
        && elementos == old(elementos))
      ensures x.Some? ==> (s == Normal && elementos == old(elementos) + 1
        && AgregaRN(old(raiz), x.valor) == Some(raiz)
        && InOrden(raiz) == InOrden(AgregaHoja(old(raiz), x.valor, Rojo))
        && Elementos(raiz) == old(Elementos(raiz)) + multiset{x.valor})
    {
      if x.None? {
        return Lanza(ArgumentoIlegal);
      }
      var t := raiz;
      AgregaRNCorrecto(t, x.valor);
      AgregaHojaElementos(t, x.valor, Rojo);
      AgregaHojaOrdenado(t, x.valor, Rojo);
      MismoInOrden(AgregaRN(t, x.valor).valor, AgregaHoja(t, x.valor, Rojo));
      raiz := AgregaRN(t, x.valor).valor;
      elementos := elementos + 1;
      s := Normal;
    }

    /** `elimina`: nothing for null or an absent element; otherwise the
        vertex found by the search-tree `busca` is taken out and the tree
        recoloured and rebalanced. */
    method Elimina(x: Option<int>)
      requires Valid()
      modifies this
      ensures Valid()
      ensures x.None? || x.valor !in old(Elementos(raiz)) ==>
        (raiz == old(raiz) && elementos == old(elementos))
      ensures x.Some? && x.valor in old(Elementos(raiz)) ==>
        (elementos == old(elementos) - 1
        && Elementos(raiz) == old(Elementos(raiz)) - multiset{x.valor})
      ensures x.Some? && x.valor in old(Elementos(raiz)) ==>
        EliminaRN(old(raiz), BuscaOrdenado(old(raiz), x.valor).valor) == Some(raiz)
    {
      if x.None? {
        return;
      }
      var e := BuscaOrdenado(raiz, x.valor);
      if e.None? {
        return;
      }
      var t, p := raiz, e.valor;
      EliminaRNValido(t, p);
      raiz := EliminaRN(t, p).valor;
      elementos := elementos - 1;
    }

    /** `giraDerecha`: refused with UnsupportedOperationException, since a
        rotation by the user would unbalance the tree. */
    method GiraDerecha(p: seq<Dir>) returns (s: Salida)
      ensures s == Lanza(OperacionNoSoportada)
    {
      s := Lanza(OperacionNoSoportada);
    }

    /** `giraIzquierda`: refused likewise. */
    method GiraIzquierda(p: seq<Dir>) returns (s: Salida)
      ensures s == Lanza(OperacionNoSoportada)
    {
      s := Lanza(OperacionNoSoportada);
    }

    /** `equals`, with colours compared at every vertex: true exactly when
        both trees are the same, colours included. */
    method Equals(otro: ArbolRojinegro) returns (r: bool)
      ensures r <==> raiz == otro.raiz
    {
      r := IgualesRN(raiz, otro.raiz);
    }
  }
}
