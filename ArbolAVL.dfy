/** `ArbolAVL`: search trees whose vertices store their height, and which
    after every insertion and removal walk from the parent of the changed
    vertex up to the root, recomputing the stored heights and rotating
    where the two sides differ by two.

    A vertex's payload is its stored height (`altura`, 0 in a new vertex).
    The walk of `rebalancea` is a function on the tree and the path of the
    vertex it is visiting; its correctness rests on `Contexto`, which says
    what holds of the vertices above the one being visited. */
module ArbolesAVL {
  import opened Comun
  import opened Arboles
  import opened ArbolesOrdenados

  /* ---------- Stored heights and balance ---------- */

  /** `auxAltura`: the height stored in a vertex, -1 for an absent one. */
  function AlturaGuardada(t: Arbol<int>): int
  {
    if t.Vacio? then -1 else t.info
  }

  /** `balance`: 0 for an absent vertex; otherwise the stored height of the
      left child minus that of the right child. */
  function Balance(t: Arbol<int>): int
  {
    if t.Vacio? then 0 else AlturaGuardada(t.izq) - AlturaGuardada(t.der)
  }

  /** `setAltura`: nothing for an absent vertex; otherwise the vertex stores
      one more than the larger stored height of its children. */
  function ConAltura(t: Arbol<int>): (r: Arbol<int>)
    ensures r.Vacio? <==> t.Vacio?
    ensures InOrden(r) == InOrden(t)
  {
    if t.Vacio? then t
    else Nodo(t.izq, t.elem, 1 + Max(AlturaGuardada(t.izq), AlturaGuardada(t.der)), t.der)
  }

  /** An AVL tree: every vertex stores its true height, and the heights of
      its two subtrees differ by at most one. */
  predicate AVL(t: Arbol<int>)
  {
    match t
    case Vacio => true
    case Nodo(l, _, h, d) =>
      AVL(l) && AVL(d) && h == AlturaDe(t) && -1 <= AlturaDe(l) - AlturaDe(d) <= 1
  }

  /** In an AVL tree the stored height is the height. */
  lemma {:induction false} AlturaGuardadaAVL(t: Arbol<int>)
    requires AVL(t)
    ensures AlturaGuardada(t) == AlturaDe(t)
  {
  }

  /** `setAltura` over subtrees whose stored heights are right stores the
      true height; when those subtrees are also balanced against each other,
      the vertex is an AVL tree. */
  lemma {:induction false} ConAlturaCorrecta(t: Arbol<int>)
    requires t.Nodo? && AVL(t.izq) && AVL(t.der)
    ensures ConAltura(t).info == AlturaDe(t) && AlturaDe(ConAltura(t)) == AlturaDe(t)
    ensures AVL(ConAltura(t)) <==> -1 <= AlturaDe(t.izq) - AlturaDe(t.der) <= 1
  {
    AlturaGuardadaAVL(t.izq);
    AlturaGuardadaAVL(t.der);
  }

  /* ---------- One visit of `rebalancea` ---------- */

  /** `giraIzquierda` on a vertex followed by `setAltura` on it: when it has
      a right child, that child takes its place and the vertex, now its left
      child, gets its height recomputed; otherwise only the vertex's height
      is recomputed. The flag says whether it turned. */
  function GiraIzquierdaYAjusta(v: Arbol<int>): (r: (Arbol<int>, bool))
    requires v.Nodo?
    ensures r.0.Nodo? && InOrden(r.0) == InOrden(v)
  {
    if v.der.Nodo? then
      var w := RotaIzquierda(v);
      (Nodo(ConAltura(w.izq), w.elem, w.info, w.der), true)
    else (ConAltura(v), false)
  }

  /** `giraDerecha` on a vertex followed by `setAltura` on it: the mirror
      image of `GiraIzquierdaYAjusta`. */
  function GiraDerechaYAjusta(v: Arbol<int>): (r: (Arbol<int>, bool))
    requires v.Nodo?
    ensures r.0.Nodo? && InOrden(r.0) == InOrden(v)
  {
    if v.izq.Nodo? then
      var w := RotaDerecha(v);
      (Nodo(w.izq, w.elem, w.info, ConAltura(w.der)), true)
    else (ConAltura(v), false)
  }

  /** The first half of the double rotation at a vertex whose right child
      leans left: the right child is turned right and its height recomputed,
      then the height of what is now its parent (the vertex that took its
      place when it turned, the visited vertex itself otherwise). */
  function PreparaDerecho(v: Arbol<int>): (r: Arbol<int>)
    requires v.Nodo? && v.der.Nodo?
    ensures r.Nodo? && InOrden(r) == InOrden(v)
  {
    var (d, girado) := GiraDerechaYAjusta(v.der);
    if girado then Nodo(v.izq, v.elem, v.info, ConAltura(d))
    else ConAltura(Nodo(v.izq, v.elem, v.info, d))
  }

  /** The mirror image of `PreparaDerecho`, for a left child that leans
      right. */
  function PreparaIzquierdo(v: Arbol<int>): (r: Arbol<int>)
    requires v.Nodo? && v.izq.Nodo?
    ensures r.Nodo? && InOrden(r) == InOrden(v)
  {
    var (l, girado) := GiraIzquierdaYAjusta(v.izq);
    if girado then Nodo(ConAltura(l), v.elem, v.info, v.der)
    else ConAltura(Nodo(l, v.elem, v.info, v.der))
  }

  /** One visit of `rebalancea` to a vertex: its height is recomputed; at
      balance -2 the right child is first turned right if its balance is 1,
      and then the vertex is turned left; balance 2 is the mirror image.
      The flag says whether a rotation moved another vertex into its place,
      which is where the walk goes next. */
  function Ajusta(v: Arbol<int>): (r: (Arbol<int>, bool))
    requires v.Nodo?
    ensures r.0.Nodo? && InOrden(r.0) == InOrden(v)
  {
    var v1 := ConAltura(v);
    if Balance(v1) == -2 then
      GiraIzquierdaYAjusta(if Balance(v1.der) == 1 then PreparaDerecho(v1) else v1)
    else if Balance(v1) == 2 then
      GiraDerechaYAjusta(if Balance(v1.izq) == -1 then PreparaIzquierdo(v1) else v1)
    else (v1, false)
  }

  /** What a visit can repair: both subtrees are AVL trees, their heights
      differ by at most two, and the stored height `h` is what the vertex's
      height was before one of its subtrees changed by at most one. */
  predicate Casi(l: int, d: int, h: int)
  {
    -2 <= l - d <= 2 &&
    if -1 <= l - d <= 1 then -1 <= 1 + Max(l, d) - h <= 1
    else Max(l, d) <= h <= Max(l, d) + 1
  }

  ghost predicate Reparable(s: Arbol<int>)
  {
    s.Nodo? && AVL(s.izq) && AVL(s.der) && Casi(AlturaDe(s.izq), AlturaDe(s.der), s.info)
  }

  /** The vertex after a visit, and after the second visit the walk makes
      to the vertex that took its place when the first one rotated. */
  function Visitado(s: Arbol<int>): Arbol<int>
    requires s.Nodo?
  {
    var (w, girado) := Ajusta(s);
    if girado then ConAltura(w) else w
  }

  /** A visit to a balanced vertex recomputes its height and does not
      rotate. */
  lemma {:induction false} AjustaBalanceado(s: Arbol<int>)
    requires Reparable(s) && -1 <= AlturaDe(s.izq) - AlturaDe(s.der) <= 1
    ensures Ajusta(s) == (ConAltura(s), false)
    ensures AVL(Visitado(s)) && -1 <= AlturaDe(Visitado(s)) - s.info <= 1
  {
    ConAlturaCorrecta(s);
  }

  /** Right side taller by two, right child not leaning left: one left
      rotation, after which the vertex now in place is balanced, so the
      second visit only recomputes its height. */
  lemma {:induction false} AjustaIzquierdaSimple(s: Arbol<int>)
    requires Reparable(s) && AlturaDe(s.der) == AlturaDe(s.izq) + 2
    requires AlturaDe(s.der.izq) <= AlturaDe(s.der.der)
    ensures Ajusta(s).1 && Ajusta(Ajusta(s).0) == (Visitado(s), false)
    ensures AVL(Visitado(s)) && -1 <= AlturaDe(Visitado(s)) - s.info <= 1
  {
    var l, d := s.izq, s.der;
    ConAlturaCorrecta(s);
    var v1 := ConAltura(s);
    AlturaGuardadaAVL(l);
    AlturaGuardadaAVL(d);
    AlturaGuardadaAVL(d.izq);
    AlturaGuardadaAVL(d.der);
    assert Balance(v1) == -2 && Balance(v1.der) != 1;
    var a := Nodo(l, s.elem, v1.info, d.izq);
    ConAlturaCorrecta(a);
    var w := Nodo(ConAltura(a), d.elem, d.info, d.der);
    assert Ajusta(s) == (w, true);
    AlturaGuardadaAVL(ConAltura(a));
    ConAlturaCorrecta(w);
  }

  /** A vertex over AVL subtrees whose heights differ by at most one: a
      visit only recomputes its height, and leaves an AVL tree. */
  lemma {:induction false} Equilibrado(w: Arbol<int>)
    requires w.Nodo? && AVL(w.izq) && AVL(w.der) && -1 <= AlturaDe(w.izq) - AlturaDe(w.der) <= 1
    ensures Ajusta(w) == (ConAltura(w), false)
    ensures AVL(ConAltura(w)) && AlturaDe(ConAltura(w)) == AlturaDe(w)
  {
    ConAlturaCorrecta(w);
    AlturaGuardadaAVL(w.izq);
    AlturaGuardadaAVL(w.der);
  }

  /** The shape the double rotation leaves when the right side is taller by
      two and the right child leans left: that child's left child `m` on
      top, the vertex on its left and the right child on its right, each
      with its height recomputed. */
  lemma {:induction false} FormaIzquierdaDoble(s: Arbol<int>) returns (w: Arbol<int>)
    requires Reparable(s) && AlturaDe(s.der) == AlturaDe(s.izq) + 2
    requires AlturaDe(s.der.izq) > AlturaDe(s.der.der)
    ensures var m := s.der.izq;
      && w.Nodo? && w.elem == m.elem
      && w.izq == ConAltura(Nodo(s.izq, s.elem, ConAltura(s).info, m.izq))
      && w.der == ConAltura(Nodo(m.der, s.der.elem, s.der.info, s.der.der))
    ensures Ajusta(s) == (w, true)
  {
    var l, d := s.izq, s.der;
    var m := d.izq;
    ConAlturaCorrecta(s);
    var v1 := ConAltura(s);
    AlturaGuardadaAVL(l);
    AlturaGuardadaAVL(d);
    AlturaGuardadaAVL(m);
    AlturaGuardadaAVL(d.der);
    assert Balance(v1) == -2 && Balance(v1.der) == 1;
    // the right child turned right: `m` on top, the child below it
    var b := Nodo(m.der, d.elem, d.info, d.der);
    var c := Nodo(m.izq, m.elem, m.info, ConAltura(b));
    assert GiraDerechaYAjusta(d) == (c, true);
    var v2 := Nodo(l, s.elem, v1.info, ConAltura(c));
    assert PreparaDerecho(v1) == v2;
    // the vertex turned left: `m` takes its place
    var a := Nodo(l, s.elem, v1.info, m.izq);
    w := Nodo(ConAltura(a), m.elem, ConAltura(c).info, ConAltura(b));
  }

  /** Right side taller by two, right child leaning left: the double
      rotation. */
  lemma {:induction false} AjustaIzquierdaDoble(s: Arbol<int>)
    requires Reparable(s) && AlturaDe(s.der) == AlturaDe(s.izq) + 2
    requires AlturaDe(s.der.izq) > AlturaDe(s.der.der)
    ensures Ajusta(s).1 && Ajusta(Ajusta(s).0) == (Visitado(s), false)
    ensures AVL(Visitado(s)) && -1 <= AlturaDe(Visitado(s)) - s.info <= 1
  {
    var l, d := s.izq, s.der;
    var m := d.izq;
    var w := FormaIzquierdaDoble(s);
    assert AVL(m) && AVL(m.izq) && AVL(m.der);
    var h := AlturaDe(l);
    assert AlturaDe(d.der) == h && AlturaDe(m) == h + 1;
    assert h - 1 <= AlturaDe(m.izq) <= h && h - 1 <= AlturaDe(m.der) <= h;
    var a := Nodo(l, s.elem, ConAltura(s).info, m.izq);
    var b := Nodo(m.der, d.elem, d.info, d.der);
    ConAlturaCorrecta(a);
    ConAlturaCorrecta(b);
    assert AlturaDe(ConAltura(a)) == h + 1 && AlturaDe(ConAltura(b)) == h + 1;
    Equilibrado(w);
    assert Visitado(s) == ConAltura(w) && AlturaDe(ConAltura(w)) == h + 2;
  }

  /** Left side taller by two, left child not leaning right: the mirror
      image of `AjustaIzquierdaSimple`. */
  lemma {:induction false} AjustaDerechaSimple(s: Arbol<int>)
    requires Reparable(s) && AlturaDe(s.izq) == AlturaDe(s.der) + 2
    requires AlturaDe(s.izq.der) <= AlturaDe(s.izq.izq)
    ensures Ajusta(s).1 && Ajusta(Ajusta(s).0) == (Visitado(s), false)
    ensures AVL(Visitado(s)) && -1 <= AlturaDe(Visitado(s)) - s.info <= 1
  {
    var l, d := s.izq, s.der;
    ConAlturaCorrecta(s);
    var v1 := ConAltura(s);
    AlturaGuardadaAVL(l);
    AlturaGuardadaAVL(d);
    AlturaGuardadaAVL(l.izq);
    AlturaGuardadaAVL(l.der);
    assert Balance(v1) == 2 && Balance(v1.izq) != -1;
    var a := Nodo(l.der, s.elem, v1.info, d);
    ConAlturaCorrecta(a);
    var w := Nodo(l.izq, l.elem, l.info, ConAltura(a));
    assert Ajusta(s) == (w, true);
    AlturaGuardadaAVL(ConAltura(a));
    ConAlturaCorrecta(w);
  }

  /** The mirror image of `FormaIzquierdaDoble`. */
  lemma {:induction false} FormaDerechaDoble(s: Arbol<int>) returns (w: Arbol<int>)
    requires Reparable(s) && AlturaDe(s.izq) == AlturaDe(s.der) + 2
    requires AlturaDe(s.izq.der) > AlturaDe(s.izq.izq)
    ensures var m := s.izq.der;
      && w.Nodo? && w.elem == m.elem
      && w.izq == ConAltura(Nodo(s.izq.izq, s.izq.elem, s.izq.info, m.izq))
      && w.der == ConAltura(Nodo(m.der, s.elem, ConAltura(s).info, s.der))
    ensures Ajusta(s) == (w, true)
  {
    var l, d := s.izq, s.der;
    var m := l.der;
    ConAlturaCorrecta(s);
    var v1 := ConAltura(s);
    AlturaGuardadaAVL(l);
    AlturaGuardadaAVL(d);
    AlturaGuardadaAVL(m);
    AlturaGuardadaAVL(l.izq);
    assert Balance(v1) == 2 && Balance(v1.izq) == -1;
    var b := Nodo(l.izq, l.elem, l.info, m.izq);
    var c := Nodo(ConAltura(b), m.elem, m.info, m.der);
    assert GiraIzquierdaYAjusta(l) == (c, true);
    var v2 := Nodo(ConAltura(c), s.elem, v1.info, d);
    assert PreparaIzquierdo(v1) == v2;
    var a := Nodo(m.der, s.elem, v1.info, d);
    w := Nodo(ConAltura(b), m.elem, ConAltura(c).info, ConAltura(a));
  }

  /** Left side taller by two, left child leaning right: the mirror image
      of `AjustaIzquierdaDoble`. */
  lemma {:induction false} AjustaDerechaDoble(s: Arbol<int>)
    requires Reparable(s) && AlturaDe(s.izq) == AlturaDe(s.der) + 2
    requires AlturaDe(s.izq.der) > AlturaDe(s.izq.izq)
    ensures Ajusta(s).1 && Ajusta(Ajusta(s).0) == (Visitado(s), false)
    ensures AVL(Visitado(s)) && -1 <= AlturaDe(Visitado(s)) - s.info <= 1
  {
    var l, d := s.izq, s.der;
    var m := l.der;
    var w := FormaDerechaDoble(s);
    assert AVL(m) && AVL(m.izq) && AVL(m.der);
    var h := AlturaDe(d);
    assert AlturaDe(l.izq) == h && AlturaDe(m) == h + 1;
    assert h - 1 <= AlturaDe(m.izq) <= h && h - 1 <= AlturaDe(m.der) <= h;
    var a := Nodo(m.der, s.elem, ConAltura(s).info, d);
    var b := Nodo(l.izq, l.elem, l.info, m.izq);
    ConAlturaCorrecta(a);
    ConAlturaCorrecta(b);
    assert AlturaDe(ConAltura(a)) == h + 1 && AlturaDe(ConAltura(b)) == h + 1;
    Equilibrado(w);
    assert Visitado(s) == ConAltura(w) && AlturaDe(ConAltura(w)) == h + 2;
  }

  /** A visit to a repairable vertex leaves an AVL tree in its place whose
      height is within one of the height the vertex had stored; when it
      rotates, the second visit to the vertex now in place only recomputes
      that vertex's height. */
  lemma {:induction false} AjustaCorrecto(s: Arbol<int>)
    requires Reparable(s)
    ensures Ajusta(s).1 ==> Ajusta(Ajusta(s).0) == (Visitado(s), false)
    ensures AVL(Visitado(s)) && -1 <= AlturaDe(Visitado(s)) - s.info <= 1
  {
    var dif := AlturaDe(s.izq) - AlturaDe(s.der);
    if -1 <= dif <= 1 {
      AjustaBalanceado(s);
    } else if dif == -2 {
      if AlturaDe(s.der.izq) <= AlturaDe(s.der.der) {
        AjustaIzquierdaSimple(s);
      } else {
        AjustaIzquierdaDoble(s);
      }
    } else {
      if AlturaDe(s.izq.der) <= AlturaDe(s.izq.izq) {
        AjustaDerechaSimple(s);
      } else {
        AjustaDerechaDoble(s);
      }
    }
  }

  /* ---------- The walk up to the root ---------- */

  /** `rebalancea` from the vertex at `p`: a visit there, then the same
      again at the vertex that took its place when the visit rotated, and
      otherwise at the parent, until the root has been visited. The source
      walks without bound; here each visit spends one of `pasos`, and
      `None` means they ran out (`RebalanceaCorrecto` shows they never do
      from the states `agrega` and `elimina` leave). */
  function Rebalancea(t: Arbol<int>, p: seq<Dir>, pasos: nat): Option<Arbol<int>>
    requires EsVertice(t, p)
    decreases pasos
  {
    if pasos == 0 then None
    else
      var (w, girado) := Ajusta(Subarbol(t, p));
      var t2 := Reemplaza(t, p, w);
      VerticeEsPosicion(t, p);
      SubarbolReemplaza(t, p, w, []);
      assert p + [] == p;
      if girado then Rebalancea(t2, p, pasos - 1)
      else if p == [] then Some(t2)
      else
        assert p[..|p| - 1] + [p[|p| - 1]] == p;
        PrefijoVertice(t2, p[..|p| - 1], [p[|p| - 1]]);
        Rebalancea(t2, p[..|p| - 1], pasos - 1)
  }

  /** A vertex above the visited one, with `d` the side the walk comes
      from: the child on that side is a vertex whose stored height the
      vertex trusts, the other child is an AVL tree, and the vertex's
      stored height and balance are right for those two heights. */
  ghost predicate Nivel(n: Arbol<int>, d: Dir)
  {
    n.Nodo? && Hijo(n, d).Nodo? && AVL(Hijo(n, Otro(d)))
    && n.info == 1 + Max(Hijo(n, d).info, AlturaDe(Hijo(n, Otro(d))))
    && -1 <= Hijo(n, d).info - AlturaDe(Hijo(n, Otro(d))) <= 1
  }

  /** Every vertex above `p` is right, given the stored heights on the
      path: once the vertex at `p` is an AVL tree of its stored height, so
      is the whole tree. */
  ghost predicate Contexto(t: Arbol<int>, p: seq<Dir>)
    decreases |p|
  {
    p == [] || (Contexto(t, p[..|p| - 1]) && Nivel(Subarbol(t, p[..|p| - 1]), p[|p| - 1]))
  }

  /** The subtrees of an AVL tree are AVL trees. */
  lemma {:induction false} SubarbolAVL(t: Arbol<int>, p: seq<Dir>)
    requires AVL(t)
    ensures AVL(Subarbol(t, p))
    decreases |p|
  {
    if p != [] && t.Nodo? {
      SubarbolAVL(Hijo(t, p[0]), p[1..]);
    }
  }

  /** In an AVL tree every vertex has its context. */
  lemma {:induction false} ContextoAVL(t: Arbol<int>, p: seq<Dir>)
    requires AVL(t) && EsVertice(t, p)
    ensures Contexto(t, p)
    decreases |p|
  {
    if p != [] {
      var q, d := p[..|p| - 1], p[|p| - 1];
      assert q + [d] == p;
      PrefijoVertice(t, q, [d]);
      ContextoAVL(t, q);
      SubarbolHijo(t, q, d);
      SubarbolAVL(t, q);
      var n := Subarbol(t, q);
      NivelAVL(n, d);
      AlturaGuardadaAVL(Hijo(n, d));
      assert Nivel(n, d);
    }
  }

  /** A replacement below a vertex keeps that vertex's context. */
  lemma {:induction false} ContextoReemplaza(t: Arbol<int>, q: seq<Dir>, r: seq<Dir>, w: Arbol<int>)
    requires Contexto(t, q) && EsVertice(t, q) && r != [] && EsPosicion(t, q + r)
    ensures Contexto(Reemplaza(t, q + r, w), q)
    decreases |q|
  {
    if q != [] {
      var t2 := Reemplaza(t, q + r, w);
      var q1, d := q[..|q| - 1], q[|q| - 1];
      assert q1 + [d] == q;
      assert q1 + ([d] + r) == q + r;
      PrefijoVertice(t, q1, [d]);
      ContextoReemplaza(t, q1, [d] + r, w);
      var n := Subarbol(t, q1);
      SubarbolArriba(t, q1, [d] + r, w);
      assert ([d] + r)[1..] == r;
      assert Subarbol(t2, q1) == Reemplaza(n, [d] + r, w);
      SubarbolHijo(t, q1, d);
    }
  }

  /** The heights around a vertex whose child changed by at most one are
      repairable. */
  lemma {:induction false} CasiDesde(c: int, o: int, x: int, h: int)
    requires -1 <= c - o <= 1 && h == 1 + Max(c, o) && -1 <= x - c <= 1
    ensures Casi(x, o, h) && Casi(o, x, h)
  {
  }

  /** A vertex whose child on side `d` is replaced by an AVL tree whose
      height is within one of `c`, the height the vertex counted on for
      that side, is repairable. */
  lemma {:induction false} NodoReparable(n: Arbol<int>, d: Dir, w: Arbol<int>, c: int)
    requires n.Nodo? && AVL(Hijo(n, Otro(d))) && AVL(w)
    requires n.info == 1 + Max(c, AlturaDe(Hijo(n, Otro(d))))
    requires -1 <= c - AlturaDe(Hijo(n, Otro(d))) <= 1
    requires -1 <= AlturaDe(w) - c <= 1
    ensures Reparable(Reemplaza(n, [d], w))
  {
    assert [d][1..] == [];
    CasiDesde(c, AlturaDe(Hijo(n, Otro(d))), AlturaDe(w), n.info);
  }

  /** The children of an AVL vertex, seen from side `d`. */
  lemma {:induction false} NivelAVL(n: Arbol<int>, d: Dir)
    requires n.Nodo? && AVL(n)
    ensures AVL(Hijo(n, d)) && AVL(Hijo(n, Otro(d)))
    ensures n.info == 1 + Max(AlturaDe(Hijo(n, d)), AlturaDe(Hijo(n, Otro(d))))
    ensures -1 <= AlturaDe(Hijo(n, d)) - AlturaDe(Hijo(n, Otro(d))) <= 1
  {
  }

  /** One level up: once the vertex at `p` is replaced by an AVL tree whose
      height is within one of what it had stored, its parent is repairable
      and keeps its context. */
  lemma {:induction false} Sube(t: Arbol<int>, p: seq<Dir>, w: Arbol<int>)
    requires p != [] && EsVertice(t, p) && Contexto(t, p)
    requires AVL(w) && -1 <= AlturaDe(w) - Subarbol(t, p).info <= 1
    ensures EsVertice(Reemplaza(t, p, w), p[..|p| - 1])
    ensures Contexto(Reemplaza(t, p, w), p[..|p| - 1])
    ensures Reparable(Subarbol(Reemplaza(t, p, w), p[..|p| - 1]))
  {
    var q, d := p[..|p| - 1], p[|p| - 1];
    assert q + [d] == p;
    var n := Subarbol(t, q);
    PrefijoVertice(t, q, [d]);
    VerticeEsPosicion(t, p);
    ContextoReemplaza(t, q, [d], w);
    SubarbolArriba(t, q, [d], w);
    SubarbolHijo(t, q, d);
    NodoReparable(n, d, w, Hijo(n, d).info);
  }

  /** The start of the walk: in an AVL tree, the subtree at position `p`
      (a vertex or an empty place) is replaced by an AVL tree whose height
      differs by at most one; the parent is then repairable and has its
      context. */
  lemma {:induction false} Inicio(t: Arbol<int>, p: seq<Dir>, w: Arbol<int>)
    requires AVL(t) && p != [] && EsPosicion(t, p)
    requires AVL(w) && -1 <= AlturaDe(w) - AlturaDe(Subarbol(t, p)) <= 1
    ensures EsVertice(Reemplaza(t, p, w), p[..|p| - 1])
    ensures Contexto(Reemplaza(t, p, w), p[..|p| - 1])
    ensures Reparable(Subarbol(Reemplaza(t, p, w), p[..|p| - 1]))
  {
    var q, d := p[..|p| - 1], p[|p| - 1];
    assert q + [d] == p;
    PadreDePosicion(t, q, d);
    var n := Subarbol(t, q);
    ContextoAVL(t, q);
    ContextoReemplaza(t, q, [d], w);
    SubarbolArriba(t, q, [d], w);
    SubarbolHijo(t, q, d);
    SubarbolAVL(t, q);
    NivelAVL(n, d);
    NodoReparable(n, d, w, AlturaDe(Hijo(n, d)));
  }

  /** A visit that does not rotate hands over to the parent, or ends the
      walk at the root. */
  lemma {:induction false} RebalanceaSinGiro(t: Arbol<int>, p: seq<Dir>, pasos: nat, v: Arbol<int>)
    requires EsVertice(t, p) && pasos >= 1 && Ajusta(Subarbol(t, p)) == (v, false)
    ensures EsVertice(Reemplaza(t, p, v), p)
    ensures p == [] ==> Rebalancea(t, p, pasos) == Some(Reemplaza(t, p, v))
    ensures p != [] ==> (EsVertice(Reemplaza(t, p, v), p[..|p| - 1])
      && Rebalancea(t, p, pasos) == Rebalancea(Reemplaza(t, p, v), p[..|p| - 1], pasos - 1))
  {
    VerticeEsPosicion(t, p);
    SubarbolReemplaza(t, p, v, []);
    assert p + [] == p;
    if p != [] {
      assert p[..|p| - 1] + [p[|p| - 1]] == p;
      PrefijoVertice(Reemplaza(t, p, v), p[..|p| - 1], [p[|p| - 1]]);
    }
  }

  /** A visit that rotates hands over to the vertex now in its place. */
  lemma {:induction false} RebalanceaConGiro(t: Arbol<int>, p: seq<Dir>, pasos: nat)
    requires EsVertice(t, p) && pasos >= 1 && Ajusta(Subarbol(t, p)).1
    ensures EsVertice(Reemplaza(t, p, Ajusta(Subarbol(t, p)).0), p)
    ensures Subarbol(Reemplaza(t, p, Ajusta(Subarbol(t, p)).0), p) == Ajusta(Subarbol(t, p)).0
    ensures Rebalancea(t, p, pasos) == Rebalancea(Reemplaza(t, p, Ajusta(Subarbol(t, p)).0), p, pasos - 1)
  {
    VerticeEsPosicion(t, p);
    SubarbolReemplaza(t, p, Ajusta(Subarbol(t, p)).0, []);
    assert p + [] == p;
  }

  /** A visit, with the second one when it rotates, as a single step of the
      walk that spends `usados` visits. */
  lemma {:induction false} RebalanceaVisita(t: Arbol<int>, p: seq<Dir>, pasos: nat) returns (usados: nat)
    requires EsVertice(t, p) && Reparable(Subarbol(t, p)) && pasos >= 2
    ensures 1 <= usados <= 2
    ensures p == [] ==> Rebalancea(t, p, pasos) == Some(Reemplaza(t, p, Visitado(Subarbol(t, p))))
    ensures p != [] ==> EsVertice(Reemplaza(t, p, Visitado(Subarbol(t, p))), p[..|p| - 1])
    ensures p != [] ==> (Rebalancea(t, p, pasos)
      == Rebalancea(Reemplaza(t, p, Visitado(Subarbol(t, p))), p[..|p| - 1], pasos - usados))
  {
    var s := Subarbol(t, p);
    if Ajusta(s).1 {
      usados := 2;
      RebalanceaDosVisitas(t, p, pasos);
    } else {
      usados := 1;
      RebalanceaSinGiro(t, p, pasos, Visitado(s));
    }
  }

  /** A visit that rotates, followed by the second visit to the vertex now
      in place, which does not rotate. */
  lemma {:induction false} RebalanceaDosVisitas(t: Arbol<int>, p: seq<Dir>, pasos: nat)
    requires EsVertice(t, p) && Reparable(Subarbol(t, p)) && pasos >= 2 && Ajusta(Subarbol(t, p)).1
    ensures EsVertice(Reemplaza(t, p, Visitado(Subarbol(t, p))), p)
    ensures p == [] ==> Rebalancea(t, p, pasos) == Some(Reemplaza(t, p, Visitado(Subarbol(t, p))))
    ensures p != [] ==> EsVertice(Reemplaza(t, p, Visitado(Subarbol(t, p))), p[..|p| - 1])
    ensures p != [] ==> (Rebalancea(t, p, pasos)
      == Rebalancea(Reemplaza(t, p, Visitado(Subarbol(t, p))), p[..|p| - 1], pasos - 2))
  {
    var s := Subarbol(t, p);
    AjustaCorrecto(s);
    var v := Visitado(s);
    var w := Ajusta(s).0;
    var t2 := Reemplaza(t, p, w);
    RebalanceaConGiro(t, p, pasos);
    RebalanceaSinGiro(t2, p, pasos - 1, v);
    VerticeEsPosicion(t, p);
    ReemplazaDosVeces(t, p, w, v);
  }

  /** A visit from a repairable vertex with its context: the tree `t3` it
      leaves has the same in-order sequence and is an AVL tree at the root;
      below the root it hands over, after `usados` visits, to a repairable
      parent with its context. */
  lemma {:induction false} RebalanceaPaso(t: Arbol<int>, p: seq<Dir>, pasos: nat) returns (t3: Arbol<int>, usados: nat)
    requires EsVertice(t, p) && Contexto(t, p) && Reparable(Subarbol(t, p)) && pasos >= 2
    ensures 1 <= usados <= 2 && InOrden(t3) == InOrden(t)
    ensures p == [] ==> Rebalancea(t, p, pasos) == Some(t3) && AVL(t3)
    ensures p != [] ==> (EsVertice(t3, p[..|p| - 1]) && Contexto(t3, p[..|p| - 1]))
    ensures p != [] ==> Reparable(Subarbol(t3, p[..|p| - 1]))
    ensures p != [] ==> Rebalancea(t, p, pasos) == Rebalancea(t3, p[..|p| - 1], pasos - usados)
  {
    var s := Subarbol(t, p);
    AjustaCorrecto(s);
    var v := Visitado(s);
    t3 := Reemplaza(t, p, v);
    usados := RebalanceaVisita(t, p, pasos);
    VerticeEsPosicion(t, p);
    ReemplazaInOrdenIgual(t, p, v);
    if p != [] {
      Sube(t, p, v);
    }
  }

  /** From a repairable vertex with its context, the walk ends, within
      `2 * |p| + 2` visits, in an AVL tree with the same in-order
      sequence. */
  lemma {:induction false} RebalanceaCorrecto(t: Arbol<int>, p: seq<Dir>, pasos: nat)
    requires EsVertice(t, p) && Contexto(t, p) && Reparable(Subarbol(t, p))
    requires pasos >= 2 * |p| + 2
    ensures Rebalancea(t, p, pasos).Some?
    ensures AVL(Rebalancea(t, p, pasos).valor)
    ensures InOrden(Rebalancea(t, p, pasos).valor) == InOrden(t)
    decreases |p|
  {
    var t3, usados := RebalanceaPaso(t, p, pasos);
    if p != [] {
      RebalanceaCorrecto(t3, p[..|p| - 1], pasos - usados);
    }
  }

  /* ---------- Insertion and removal ---------- */

  /** The new vertex of `agrega`: a leaf whose stored height is 0. */
  function Hoja(x: int): Arbol<int>
  {
    Nodo(Vacio, x, 0, Vacio)
  }

  /** `agrega` of an AVL tree: the search tree's insertion of a leaf, then
      the walk from the leaf's parent (none when the leaf is the root). */
  function AgregaAVL(t: Arbol<int>, x: int): Option<Arbol<int>>
  {
    var p := Hueco(t, x);
    var t1 := AgregaHoja(t, x, 0);
    if p == [] then Some(t1)
    else
      AgregaHojaEnHueco(t, x, 0);
      assert p[..|p| - 1] + [p[|p| - 1]] == p;
      PrefijoVertice(t1, p[..|p| - 1], [p[|p| - 1]]);
      Rebalancea(t1, p[..|p| - 1], 2 * |p|)
  }

  /** `agrega` keeps an AVL tree an AVL tree, with the in-order sequence of
      the plain search-tree insertion. */
  lemma {:induction false} AgregaAVLCorrecto(t: Arbol<int>, x: int)
    requires AVL(t)
    ensures AgregaAVL(t, x).Some?
    ensures AVL(AgregaAVL(t, x).valor)
    ensures InOrden(AgregaAVL(t, x).valor) == InOrden(AgregaHoja(t, x, 0))
  {
    var p := Hueco(t, x);
    var t1 := AgregaHoja(t, x, 0);
    if p != [] {
      Inicio(t, p, Hoja(x));
      RebalanceaCorrecto(t1, p[..|p| - 1], 2 * |p|);
    }
  }

  /** The vertex `elimina` takes out, and the tree it is taken out of: the
      vertex at `p` itself, or, when it has two children, the predecessor
      it swaps elements with (`intercambiaEliminable`). */
  function Eliminable(t: Arbol<int>, p: seq<Dir>): (r: (Arbol<int>, seq<Dir>))
    requires EsVertice(t, p)
    ensures EsVertice(r.0, r.1)
    ensures Subarbol(r.0, r.1).izq.Vacio? || Subarbol(r.0, r.1).der.Vacio?
  {
    var v := Subarbol(t, p);
    if v.izq.Nodo? && v.der.Nodo? then
      IntercambiaEliminableCorrecto(t, p);
      IntercambiaEliminable(t, p)
    else (t, p)
  }

  /** The removal `elimina` makes before rebalancing, and the path of the
      vertex it takes out, which is replaced by its only child
      (`eliminaUnico`) or by nothing (`eliminaSinHijos`, which empties the
      tree at the root). */
  function Desprende(t: Arbol<int>, p: seq<Dir>): (Arbol<int>, seq<Dir>)
    requires EsVertice(t, p)
  {
    var e := Eliminable(t, p);
    (Reemplaza(e.0, e.1, HijoUnico(Subarbol(e.0, e.1))), e.1)
  }

  /** The removed vertex's place is still a position, so its parent is a
      vertex. */
  lemma {:induction false} DesprendePosicion(t: Arbol<int>, p: seq<Dir>)
    requires EsVertice(t, p)
    ensures EsPosicion(Desprende(t, p).0, Desprende(t, p).1)
    ensures Desprende(t, p).1 != [] ==>
      EsVertice(Desprende(t, p).0, Desprende(t, p).1[..|Desprende(t, p).1| - 1])
  {
    var e := Eliminable(t, p);
    ReemplazaVertice(e.0, e.1, HijoUnico(Subarbol(e.0, e.1)));
  }

  /** `Desprende` is the search-tree removal `Quita`, so it removes
      exactly the element at `p` and keeps the tree ordered. */
  lemma {:induction false} DesprendeEsQuita(t: Arbol<int>, p: seq<Dir>)
    requires EsVertice(t, p)
    ensures Desprende(t, p).0 == Quita(t, p)
  {
    if Tamano(t) == 1 {
      assert t.izq.Vacio? && t.der.Vacio?;
      if p != [] {
        SubarbolVacio<int>(p[1..]);
      }
    } else if p == [] && t.izq.Vacio? && t.der.Vacio? {
      TamanoHoja(t);
    }
  }

  /** Putting an AVL tree of the same height in place of a subtree keeps an
      AVL tree an AVL tree of the same height. */
  lemma {:induction false} AVLReemplazaIgual(t: Arbol<int>, p: seq<Dir>, s: Arbol<int>)
    requires AVL(t) && EsPosicion(t, p)
    requires AVL(s) && AlturaDe(s) == AlturaDe(Subarbol(t, p))
    ensures AVL(Reemplaza(t, p, s)) && AlturaDe(Reemplaza(t, p, s)) == AlturaDe(t)
    decreases |p|
  {
    if p != [] {
      AVLReemplazaIgual(Hijo(t, p[0]), p[1..], s);
    }
  }

  /** `intercambiaEliminable` only moves elements between vertices, so it
      keeps an AVL tree an AVL tree. */
  lemma {:induction false} EliminableAVL(t: Arbol<int>, p: seq<Dir>)
    requires AVL(t) && EsVertice(t, p)
    ensures AVL(Eliminable(t, p).0)
  {
    var v := Subarbol(t, p);
    if v.izq.Nodo? && v.der.Nodo? {
      var k := MaximoEn(v.izq);
      var m := Subarbol(v.izq, k);
      var m1 := Nodo(m.izq, v.elem, m.info, m.der);
      var l1 := Reemplaza(v.izq, k, m1);
      SubarbolAVL(t, p);
      SubarbolAVL(v.izq, k);
      VerticeEsPosicion(v.izq, k);
      AVLReemplazaIgual(v.izq, k, m1);
      VerticeEsPosicion(t, p);
      AVLReemplazaIgual(t, p, Nodo(l1, m.elem, v.info, v.der));
    }
  }

  /** In an AVL tree, the only child of a vertex with at most one is one
      level lower than it. */
  lemma {:induction false} HijoUnicoAVL(u: Arbol<int>)
    requires AVL(u) && u.Nodo? && (u.izq.Vacio? || u.der.Vacio?)
    ensures AVL(HijoUnico(u)) && AlturaDe(HijoUnico(u)) == AlturaDe(u) - 1
  {
  }

  /** `elimina` on the vertex at `p`: the removal, then `rebalancea` from
      the parent of the vertex taken out (nothing when it was the root). */
  function EliminaAVL(t: Arbol<int>, p: seq<Dir>): Option<Arbol<int>>
    requires EsVertice(t, p)
  {
    var (t2, q) := Desprende(t, p);
    if q == [] then Some(t2)
    else
      DesprendePosicion(t, p);
      Rebalancea(t2, q[..|q| - 1], 2 * |q|)
  }

  /** `elimina` keeps an AVL tree an AVL tree, with the in-order sequence of
      the plain search-tree removal. */
  lemma {:induction false} EliminaAVLCorrecto(t: Arbol<int>, p: seq<Dir>)
    requires AVL(t) && EsVertice(t, p)
    ensures EliminaAVL(t, p).Some?
    ensures AVL(EliminaAVL(t, p).valor)
    ensures InOrden(EliminaAVL(t, p).valor) == InOrden(Quita(t, p))
  {
    var e := Eliminable(t, p);
    var t1, q := e.0, e.1;
    var u := Subarbol(t1, q);
    var c := HijoUnico(u);
    EliminableAVL(t, p);
    SubarbolAVL(t1, q);
    HijoUnicoAVL(u);
    DesprendeEsQuita(t, p);
    if q != [] {
      VerticeEsPosicion(t1, q);
      Inicio(t1, q, c);
      RebalanceaCorrecto(Reemplaza(t1, q, c), q[..|q| - 1], 2 * |q|);
    }
  }

  /** The balance of every vertex of an AVL tree is -1, 0 or 1. */
  lemma {:induction false} BalanceAVL(t: Arbol<int>, p: seq<Dir>)
    requires AVL(t) && EsVertice(t, p)
    ensures -1 <= Balance(Subarbol(t, p)) <= 1
  {
    SubarbolAVL(t, p);
  }

  /* ---------- Equality ---------- */

  /** `VerticeAVL.equals` on two roots: equal stored heights at the top,
      then the recursive vertex equality, which compares elements and shape
      but no further heights. */
  function IgualesAVL(a: Arbol<int>, b: Arbol<int>): (r: bool)
    ensures r ==> Forma(a) == Forma(b)
  {
    AlturaGuardada(a) == AlturaGuardada(b) && Iguales(a, b)
  }

  /** In AVL trees the stored heights follow from the shape, so two AVL
      trees of the same shape and elements are the same tree. */
  lemma {:induction false} AVLFormaDetermina(a: Arbol<int>, b: Arbol<int>)
    requires AVL(a) && AVL(b) && Forma(a) == Forma(b)
    ensures a == b
  {
    match a
    case Vacio =>
    case Nodo(l, _, _, d) =>
      AVLFormaDetermina(l, b.izq);
      AVLFormaDetermina(d, b.der);
  }

  /** Comparing only the top height loses nothing on AVL trees: `equals`
      holds exactly when the trees are identical, heights included. */
  lemma {:induction false} IgualesAVLCorrecto(a: Arbol<int>, b: Arbol<int>)
    requires AVL(a) && AVL(b)
    ensures IgualesAVL(a, b) <==> a == b
  {
    if Forma(a) == Forma(b) {
      AVLFormaDetermina(a, b);
    }
  }

  /* ---------- The class ---------- */

  /** An AVL tree: a search tree whose vertices store their heights. */
  class ArbolAVL {
    var raiz: Arbol<int>
    var elementos: int

    /** The count is right, the tree is a search tree, and it is AVL. */
    ghost predicate Valid()
      reads this
    {
      elementos == Tamano(raiz) && Ordenado(raiz) && AVL(raiz)
    }

    /** An empty tree. */
    constructor()
      ensures Valid() && raiz == Vacio && elementos == 0
    {
      raiz := Vacio;
      elementos := 0;
    }

    /** `agrega`: the search-tree insertion (null refused with
        IllegalArgumentException), then `rebalancea` from the parent of the
        new leaf. */
    method Agrega(x: Option<int>) returns (s: Salida)
      requires Valid()
      modifies this
      ensures Valid()
      ensures x.None? ==> (s == Lanza(ArgumentoIlegal) && raiz == old(raiz)
        && elementos == old(elementos))
      ensures x.Some? ==> (s == Normal && elementos == old(elementos) + 1
        && AgregaAVL(old(raiz), x.valor) == Some(raiz)
        && InOrden(raiz) == InOrden(AgregaHoja(old(raiz), x.valor, 0))
        && Elementos(raiz) == old(Elementos(raiz)) + multiset{x.valor})
    {
      if x.None? {
        return Lanza(ArgumentoIlegal);
      }
      var t := raiz;
      AgregaAVLCorrecto(t, x.valor);
      AgregaHojaElementos(t, x.valor, 0);
      AgregaHojaOrdenado(t, x.valor, 0);
      MismoInOrden(AgregaAVL(t, x.valor).valor, AgregaHoja(t, x.valor, 0));
      raiz := AgregaAVL(t, x.valor).valor;
      elementos := elementos + 1;
      s := Normal;
    }

    /** `elimina`: nothing for null or an absent element; otherwise the
        vertex found by the search-tree `busca` is removed and the tree
        rebalanced from the parent of the vertex taken out. */
    method Elimina(x: Option<int>)
      requires Valid()
      modifies this
      ensures Valid()
      ensures x.None? || x.valor !in old(Elementos(raiz)) ==>
        (raiz == old(raiz) && elementos == old(elementos))
      ensures x.Some? && x.valor in old(Elementos(raiz)) ==>
        (elementos == old(elementos) - 1
        && Elementos(raiz) == old(Elementos(raiz)) - multiset{x.valor})
      ensures x.Some? && x.valor in old(Elementos(raiz)) ==>
        EliminaAVL(old(raiz), BuscaOrdenado(old(raiz), x.valor).valor) == Some(raiz)
    {
      if x.None? || raiz.Vacio? {
        return;
      }
      var e := BuscaOrdenado(raiz, x.valor);
      if e.None? {
        return;
      }
      var t, p := raiz, e.valor;
      EliminaAVLCorrecto(t, p);
      QuitaCorrecto(t, p);
      MismoInOrden(EliminaAVL(t, p).valor, Quita(t, p));
      raiz := EliminaAVL(t, p).valor;
      elementos := elementos - 1;
    }

    /** `giraDerecha`: refused with UnsupportedOperationException, since a
        rotation by the user would unbalance the tree. */
    method GiraDerecha(p: seq<Dir>) returns (s: Salida)
      ensures s == Lanza(OperacionNoSoportada)
    {
      s := Lanza(OperacionNoSoportada);
    }

    /** `giraIzquierda`: refused likewise. */
    method GiraIzquierda(p: seq<Dir>) returns (s: Salida)
      ensures s == Lanza(OperacionNoSoportada)
    {
      s := Lanza(OperacionNoSoportada);
    }

    /** `equals`: both empty, or equal roots as `VerticeAVL.equals` compares
        them; between valid trees, whether they are identical. */
    method Equals(otro: ArbolAVL) returns (r: bool)
      requires Valid() && otro.Valid()
      ensures r <==> IgualesAVL(raiz, otro.raiz)
      ensures r <==> raiz == otro.raiz
    {
      IgualesAVLCorrecto(raiz, otro.raiz);
      if raiz.Vacio? && otro.raiz.Vacio? {
        return true;
      }
      if raiz.Vacio? || otro.raiz.Vacio? {
        return false;
      }
      r := IgualesAVL(raiz, otro.raiz);
    }
  }
}
