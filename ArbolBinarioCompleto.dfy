/** `ArbolBinarioCompleto`: a binary tree filled level by level, left to
    right. Its vertices are numbered in breadth-first order from 1 at the
    root, the children of vertex i being 2i and 2i + 1, so a complete tree
    with n vertices has exactly the vertices 1 to n. */
module ArbolesCompletos {
  import opened Comun
  import opened Arboles
  import opened Recorridos

  /* ---------- Breadth-first numbering ---------- */

  /** The floor of the base-2 logarithm. */
  function Log2(n: nat): nat
    requires n >= 1
  {
    if n == 1 then 0 else 1 + Log2(n / 2)
  }

  /** The path from the root to vertex number `i`: the binary digits of
      `i` after the leading one, 0 for left and 1 for right. */
  function Ruta(i: nat): (p: seq<Dir>)
    requires i >= 1
  {
    if i == 1 then [] else Ruta(i / 2) + [if i % 2 == 0 then Izq else Der]
  }

  /** Vertex `i` lies at depth Log2(i). */
  lemma {:induction false} RutaLongitud(i: nat)
    requires i >= 1
    ensures |Ruta(i)| == Log2(i)
    decreases i
  {
    if i != 1 {
      RutaLongitud(i / 2);
    }
  }

  /** The number of the vertex a path leads to. */
  function Indice(p: seq<Dir>): (i: nat)
    ensures i >= 1
  {
    if p == [] then 1
    else 2 * Indice(p[..|p| - 1]) + (if p[|p| - 1] == Izq then 0 else 1)
  }

  /** Numbering and paths are inverse to each other. */
  lemma {:induction false} IndiceRuta(i: nat)
    requires i >= 1
    ensures Indice(Ruta(i)) == i
    decreases i
  {
    if i != 1 {
      IndiceRuta(i / 2);
      var p := Ruta(i);
      assert p[..|p| - 1] == Ruta(i / 2);
    }
  }

  lemma {:induction false} RutaIndice(p: seq<Dir>)
    ensures Ruta(Indice(p)) == p
    decreases |p|
  {
    if p != [] {
      var q := p[..|p| - 1];
      RutaIndice(q);
      var i := Indice(p);
      assert i / 2 == Indice(q);
      assert q + [p[|p| - 1]] == p;
    }
  }

  /** The logarithm grows with its argument. */
  lemma {:induction false} Log2Monotono(i: nat, j: nat)
    requires 1 <= i <= j
    ensures Log2(i) <= Log2(j)
    decreases j
  {
    if i != 1 {
      Log2Monotono(i / 2, j / 2);
    }
  }

  /** The paths of vertices `a` to `b - 1`, in order. */
  function Rutas(a: nat, b: nat): (r: seq<seq<Dir>>)
    requires 1 <= a <= b
    ensures |r| == b - a && forall k :: 0 <= k < b - a ==> r[k] == Ruta(a + k)
  {
    seq(b - a, k requires 0 <= k < b - a => Ruta(a + k))
  }

  lemma {:induction false} RutasSinPrimera(a: nat, b: nat)
    requires 1 <= a < b
    ensures Rutas(a, b)[1..] == Rutas(a + 1, b)
  {
  }

  lemma {:induction false} RutasMasUna(a: nat, b: nat)
    requires 1 <= a <= b
    ensures Rutas(a, b) + [Ruta(b)] == Rutas(a, b + 1)
  {
  }

  /** Vertices 1 to `n` are present, and no others. */
  ghost predicate Completo<A>(t: Arbol<A>, n: nat)
  {
    forall i: nat {:trigger Subarbol(t, Ruta(i))} :: i >= 1 ==> (EsVertice(t, Ruta(i)) <==> i <= n)
  }

  /** In a complete tree every vertex has a number from 1 to `n`. */
  lemma {:induction false} NumeroDeVertice<A>(t: Arbol<A>, n: nat, p: seq<Dir>)
    requires Completo(t, n)
    ensures EsVertice(t, p) <==> Indice(p) <= n
  {
    RutaIndice(p);
  }

  /** The elements of a complete tree in breadth-first order. */
  function Niveles<A>(t: Arbol<A>, n: nat): (r: seq<int>)
    requires Completo(t, n)
    ensures |r| == n
    ensures forall k :: 0 <= k < n ==> r[k] == Subarbol(t, Ruta(k + 1)).elem
  {
    NivelesHasta(t, n, n)
  }

  /** The elements of vertices `1` to `m` of a complete tree. */
  function NivelesHasta<A>(t: Arbol<A>, n: nat, m: nat): (r: seq<int>)
    requires Completo(t, n) && m <= n
    ensures |r| == m
    ensures forall k :: 0 <= k < m ==> r[k] == Subarbol(t, Ruta(k + 1)).elem
  {
    if m == 0 then [] else NivelesHasta(t, n, m - 1) + [Subarbol(t, Ruta(m)).elem]
  }

  /** A sequence holding the element of each vertex in turn is the level
      order. */
  lemma {:induction false} NivelesSon<A>(t: Arbol<A>, n: nat, s: seq<int>)
    requires Completo(t, n) && |s| == n
    requires forall i :: 1 <= i <= n ==> Subarbol(t, Ruta(i)).elem == s[i - 1]
    ensures Niveles(t, n) == s
  {
    forall k | 0 <= k < n
      ensures Niveles(t, n)[k] == s[k]
    {
      assert Subarbol(t, Ruta(k + 1)).elem == s[k];
    }
  }

  /** Equal numbers, equal paths (stated as a lemma so that an equation
      found by arithmetic reaches the paths). */
  lemma {:induction false} MismaRuta(i: nat, j: nat)
    requires i >= 1 && i == j
    ensures Ruta(i) == Ruta(j)
  {
  }

  /** Distinct vertices have distinct paths. */
  lemma {:induction false} RutaInyectiva(i: nat, j: nat)
    requires i >= 1 && j >= 1 && Ruta(i) == Ruta(j)
    ensures i == j
  {
    IndiceRuta(i);
    IndiceRuta(j);
  }

  /** The children of vertex `i` are vertices `2i` and `2i + 1`. */
  lemma {:induction false} RutaHijos(i: nat)
    requires i >= 1
    ensures Ruta(2 * i) == Ruta(i) + [Izq] && Ruta(2 * i + 1) == Ruta(i) + [Der]
  {
  }

  /* ---------- Replacing a subtree, seen from elsewhere ---------- */

  /** A replacement at `p` leaves every path that does not run through `p`
      leading to a vertex exactly when it did, holding the same element. */
  lemma {:induction false} ElementoFuera<A>(t: Arbol<A>, p: seq<Dir>, s: Arbol<A>, q: seq<Dir>)
    requires EsPosicion(t, p) && !(p <= q)
    ensures EsVertice(Reemplaza(t, p, s), q) <==> EsVertice(t, q)
    ensures EsVertice(t, q) ==> Subarbol(Reemplaza(t, p, s), q).elem == Subarbol(t, q).elem
    decreases |q|
  {
    if q != [] && q[0] == p[0] {
      assert !(p[1..] <= q[1..]);
      ElementoFuera(if p[0] == Izq then t.izq else t.der, p[1..], s, q[1..]);
    }
  }

  /** The vertex at `p` with its element replaced by `e` (`intercambia`
      writes the elements of two vertices this way). */
  function ConElemento<A>(t: Arbol<A>, p: seq<Dir>, e: int): Arbol<A>
    requires EsVertice(t, p)
  {
    var v := Subarbol(t, p);
    Reemplaza(t, p, Nodo(v.izq, e, v.info, v.der))
  }

  /** Writing an element changes that element and nothing else. */
  lemma {:induction false} ConElementoEfecto<A>(t: Arbol<A>, p: seq<Dir>, e: int, q: seq<Dir>)
    requires EsVertice(t, p)
    ensures EsVertice(ConElemento(t, p, e), q) <==> EsVertice(t, q)
    ensures EsVertice(t, q) ==>
      Subarbol(ConElemento(t, p, e), q).elem == if q == p then e else Subarbol(t, q).elem
  {
    var v := Subarbol(t, p);
    var w := Nodo(v.izq, e, v.info, v.der);
    VerticeEsPosicion(t, p);
    if p <= q {
      var r := q[|p|..];
      assert q == p + r;
      SubarbolReemplaza(t, p, w, r);
      SubarbolConcatena(t, p, r);
      if r != [] {
        assert Subarbol(w, r) == Subarbol(v, r);
      }
    } else {
      ElementoFuera(t, p, w, q);
    }
  }

  /* ---------- Growing and shrinking by the last vertex ---------- */

  /** The place of vertex `n + 1` is an empty position just below a
      vertex (or the root of an empty tree). */
  lemma {:induction false} SiguienteEsPosicion<A>(t: Arbol<A>, n: nat)
    requires Completo(t, n)
    ensures EsPosicion(t, Ruta(n + 1)) && !EsVertice(t, Ruta(n + 1))
  {
    if n >= 1 {
      var i := (n + 1) / 2;
      assert EsVertice(t, Ruta(i));
      VerticeEsPosicion(t, Ruta(i));
      HijoEsPosicion(t, Ruta(i), if (n + 1) % 2 == 0 then Izq else Der);
    }
  }

  /** Vertex `i` after a leaf is put at the place of vertex `n + 1`. */
  lemma {:induction false} AgregaEn<A>(t: Arbol<A>, n: nat, hoja: Arbol<A>, i: nat)
    requires Completo(t, n) && hoja.Nodo? && hoja.izq.Vacio? && hoja.der.Vacio? && i >= 1
    requires EsPosicion(t, Ruta(n + 1))
    ensures var t2 := Reemplaza(t, Ruta(n + 1), hoja);
      && (EsVertice(t2, Ruta(i)) <==> i <= n + 1)
      && (i <= n ==> Subarbol(t2, Ruta(i)).elem == Subarbol(t, Ruta(i)).elem)
      && (i == n + 1 ==> Subarbol(t2, Ruta(i)) == hoja)
  {
    var p := Ruta(n + 1);
    var q := Ruta(i);
    if p <= q {
      var r := q[|p|..];
      assert q == p + r;
      SubarbolReemplaza(t, p, hoja, r);
      if r == [] {
        RutaInyectiva(i, n + 1);
      } else {
        assert Subarbol(hoja, r).Vacio?;
        if i <= n {
          assert EsVertice(t, q);
          PrefijoVertice(t, p, r);
        }
      }
    } else {
      assert i != n + 1;
      ElementoFuera(t, p, hoja, q);
    }
  }

  /** A leaf put at the place of vertex `n + 1` makes a complete tree of
      `n + 1` vertices with one more element at the end of the level
      order. */
  lemma {:induction false} AgregaCompleto<A>(t: Arbol<A>, n: nat, hoja: Arbol<A>)
    requires Completo(t, n) && hoja.Nodo? && hoja.izq.Vacio? && hoja.der.Vacio?
    ensures EsPosicion(t, Ruta(n + 1))
    ensures var t2 := Reemplaza(t, Ruta(n + 1), hoja);
      Completo(t2, n + 1) && Niveles(t2, n + 1) == Niveles(t, n) + [hoja.elem]
  {
    var t2 := Reemplaza(t, Ruta(n + 1), hoja);
    SiguienteEsPosicion(t, n);
    forall i: nat | i >= 1
      ensures EsVertice(t2, Ruta(i)) <==> i <= n + 1
    {
      AgregaEn(t, n, hoja, i);
    }
    var s := Niveles(t, n) + [hoja.elem];
    forall i | 1 <= i <= n + 1
      ensures Subarbol(t2, Ruta(i)).elem == s[i - 1]
    {
      AgregaEn(t, n, hoja, i);
      if i <= n {
        assert s[i - 1] == Niveles(t, n)[i - 1] == Subarbol(t, Ruta(i)).elem;
      }
    }
    NivelesSon(t2, n + 1, s);
  }

  /** Taking away the last vertex, a leaf, leaves a complete tree of
      `n - 1` vertices whose level order loses its last element. */
  lemma {:induction false} QuitaUltimoCompleto<A>(t: Arbol<A>, n: nat)
    requires Completo(t, n) && n >= 1
    ensures EsVertice(t, Ruta(n))
    ensures var t2 := Reemplaza(t, Ruta(n), Vacio);
      Completo(t2, n - 1) && Niveles(t2, n - 1) == Niveles(t, n)[..n - 1]
  {
    var p := Ruta(n);
    var t2 := Reemplaza(t, p, Vacio);
    VerticeEsPosicion(t, p);
    forall i: nat | i >= 1
      ensures EsVertice(t2, Ruta(i)) <==> i <= n - 1
      ensures i <= n - 1 ==> Subarbol(t2, Ruta(i)).elem == Subarbol(t, Ruta(i)).elem
    {
      var q := Ruta(i);
      if p <= q {
        var r := q[|p|..];
        assert q == p + r;
        SubarbolReemplaza(t, p, Vacio, r);
        SubarbolVacio<A>(r);
        if i < n {
          Log2Monotono(i, n);
          RutaLongitud(i);
          RutaLongitud(n);
          assert r == [];
          RutaInyectiva(i, n);
        }
      } else {
        ElementoFuera(t, p, Vacio, q);
      }
    }
    assert Niveles(t2, n - 1) == Niveles(t, n)[..n - 1];
  }

  /* ---------- Removal ---------- */

  /** `intercambia`: the vertices at `p` and `q` exchange their elements. */
  function Intercambia<A>(t: Arbol<A>, p: seq<Dir>, q: seq<Dir>): (r: Arbol<A>)
    requires EsVertice(t, p) && EsVertice(t, q)
  {
    var a, b := Subarbol(t, p).elem, Subarbol(t, q).elem;
    ConElementoEfecto(t, p, b, q);
    ConElemento(ConElemento(t, p, b), q, a)
  }

  /** Exchanging two elements keeps every vertex, and moves each of the
      two elements to the other's vertex. */
  lemma {:induction false} IntercambiaEfecto<A>(t: Arbol<A>, p: seq<Dir>, q: seq<Dir>, x: seq<Dir>)
    requires EsVertice(t, p) && EsVertice(t, q)
    ensures EsVertice(Intercambia(t, p, q), x) <==> EsVertice(t, x)
    ensures EsVertice(t, x) ==>
      Subarbol(Intercambia(t, p, q), x).elem ==
      (if x == q then Subarbol(t, p).elem
       else if x == p then Subarbol(t, q).elem
       else Subarbol(t, x).elem)
  {
    var a, b := Subarbol(t, p).elem, Subarbol(t, q).elem;
    var t1 := ConElemento(t, p, b);
    ConElementoEfecto(t, p, b, q);
    ConElementoEfecto(t, p, b, x);
    ConElementoEfecto(t1, q, a, x);
  }

  /** Vertex `i` after the elements of vertices `j` and `m` are
      exchanged. */
  lemma {:induction false} IntercambiaEn<A>(t: Arbol<A>, n: nat, j: nat, m: nat, i: nat)
    requires Completo(t, n) && 1 <= j <= n && 1 <= m <= n && i >= 1
    ensures EsVertice(Intercambia(t, Ruta(j), Ruta(m)), Ruta(i)) <==> i <= n
    ensures i <= n ==>
      Subarbol(Intercambia(t, Ruta(j), Ruta(m)), Ruta(i)).elem ==
      Subarbol(t, Ruta(if i == m then j else if i == j then m else i)).elem
  {
    IntercambiaEfecto(t, Ruta(j), Ruta(m), Ruta(i));
    if Ruta(i) == Ruta(m) { RutaInyectiva(i, m); }
    if Ruta(i) == Ruta(j) { RutaInyectiva(i, j); }
  }

  /** The element of vertex `i` after the exchange, read off the level
      order before it. */
  lemma {:induction false} IntercambiaNivelEn<A>(t: Arbol<A>, n: nat, j: nat, m: nat, i: nat)
    requires Completo(t, n) && 1 <= j <= n && 1 <= m <= n && 1 <= i <= n
    ensures var s := Niveles(t, n);
      EsVertice(Intercambia(t, Ruta(j), Ruta(m)), Ruta(i))
      && Subarbol(Intercambia(t, Ruta(j), Ruta(m)), Ruta(i)).elem
         == s[j - 1 := s[m - 1]][m - 1 := s[j - 1]][i - 1]
  {
    IntercambiaEn(t, n, j, m, i);
    var s := Niveles(t, n);
    var u := s[j - 1 := s[m - 1]][m - 1 := s[j - 1]];
    if i == m {
      assert u[i - 1] == s[j - 1] == Subarbol(t, Ruta(j)).elem;
    } else if i == j {
      assert u[i - 1] == s[m - 1] == Subarbol(t, Ruta(m)).elem;
    } else {
      assert u[i - 1] == s[i - 1] == Subarbol(t, Ruta(i)).elem;
    }
  }

  /** Exchanging the elements of vertices `j` and `m` keeps the tree
      complete and exchanges their places in the level order. */
  lemma {:induction false} IntercambiaNiveles<A>(t: Arbol<A>, n: nat, j: nat, m: nat)
    requires Completo(t, n) && 1 <= j <= n && 1 <= m <= n
    ensures var s := Niveles(t, n);
      var t2 := Intercambia(t, Ruta(j), Ruta(m));
      Completo(t2, n) && Niveles(t2, n) == s[j - 1 := s[m - 1]][m - 1 := s[j - 1]]
  {
    var t2 := Intercambia(t, Ruta(j), Ruta(m));
    forall i: nat | i >= 1
      ensures EsVertice(t2, Ruta(i)) <==> i <= n
    {
      IntercambiaEn(t, n, j, m, i);
    }
    var s := Niveles(t, n);
    var u := s[j - 1 := s[m - 1]][m - 1 := s[j - 1]];
    forall i | 1 <= i <= n
      ensures Subarbol(t2, Ruta(i)).elem == u[i - 1]
    {
      IntercambiaNivelEn(t, n, j, m, i);
    }
    NivelesSon(t2, n, u);
  }

  /** A sequence with its `k`-th element replaced by the last one, and the
      last one dropped. */
  function QuitaEn(s: seq<int>, k: nat): (r: seq<int>)
    requires k < |s|
  {
    s[k := s[|s| - 1]][..|s| - 1]
  }

  /** `QuitaEn` takes out exactly the `k`-th element. */
  lemma {:induction false} QuitaEnElementos(s: seq<int>, k: nat)
    requires k < |s|
    ensures |QuitaEn(s, k)| == |s| - 1
    ensures multiset(QuitaEn(s, k)) == multiset(s) - multiset{s[k]}
  {
    var n := |s|;
    var u := s[k := s[n - 1]];
    assert s == s[..n - 1] + [s[n - 1]];
    if k == n - 1 {
      assert QuitaEn(s, k) == s[..n - 1];
    } else {
      assert s[..n - 1] == s[..k] + [s[k]] + s[k + 1..n - 1];
      assert QuitaEn(s, k) == s[..k] + [s[n - 1]] + s[k + 1..n - 1];
    }
  }

  /** `elimina` past its early exits: the element at vertex `j` is
      exchanged with the last vertex's, which is then taken away. The tree
      stays complete and the level order loses its `j`-th element, the
      last one taking its place. */
  lemma {:induction false} EliminaCompleto<A>(t: Arbol<A>, n: nat, j: nat)
    requires Completo(t, n) && 1 <= j <= n
    ensures var t2 := Intercambia(t, Ruta(j), Ruta(n));
      EsPosicion(t2, Ruta(n))
      && Completo(Reemplaza(t2, Ruta(n), Vacio), n - 1)
      && Niveles(Reemplaza(t2, Ruta(n), Vacio), n - 1) == QuitaEn(Niveles(t, n), j - 1)
  {
    var t2 := Intercambia(t, Ruta(j), Ruta(n));
    IntercambiaNiveles(t, n, j, n);
    QuitaUltimoCompleto(t2, n);
    VerticeEsPosicion(t2, Ruta(n));
    var s := Niveles(t, n);
    assert s[j - 1 := s[n - 1]][n - 1 := s[j - 1]][..n - 1] == QuitaEn(s, j - 1);
  }

  /* ---------- What the numbering says about the whole tree ---------- */

  /** The last vertex is a leaf. */
  lemma {:induction false} UltimoEsHoja<A>(t: Arbol<A>, n: nat)
    requires Completo(t, n) && n >= 1
    ensures EsVertice(t, Ruta(n))
    ensures Subarbol(t, Ruta(n)).izq.Vacio? && Subarbol(t, Ruta(n)).der.Vacio?
  {
    var p := Ruta(n);
    RutaHijos(n);
    assert !EsVertice(t, Ruta(2 * n)) && !EsVertice(t, Ruta(2 * n + 1));
    SubarbolConcatena(t, p, [Izq]);
    SubarbolConcatena(t, p, [Der]);
  }

  /** The level order holds the elements of the tree, each vertex's once:
      peeling off the last vertex, a leaf, takes the last element off both. */
  lemma {:induction false} ElementosNiveles<A>(t: Arbol<A>, n: nat)
    requires Completo(t, n)
    ensures Elementos(t) == multiset(Niveles(t, n))
    ensures Tamano(t) == n
    decreases n
  {
    if n == 0 {
      assert !EsVertice(t, Ruta(1));
      assert t == Vacio;
    } else {
      QuitaUltimoCompleto(t, n);
      ElementosNiveles(Reemplaza(t, Ruta(n), Vacio), n - 1);
      UltimoEsHoja(t, n);
      QuitaUltimoElementos(t, Ruta(n), Niveles(t, n));
    }
  }

  /** The step of `ElementosNiveles`: a leaf at `p` holding the last
      element of `s` adds that element to the rest of the tree. */
  lemma {:induction false} QuitaUltimoElementos<A>(t: Arbol<A>, p: seq<Dir>, s: seq<int>)
    requires EsVertice(t, p) && |s| >= 1
    requires Subarbol(t, p).izq.Vacio? && Subarbol(t, p).der.Vacio?
    requires Subarbol(t, p).elem == s[|s| - 1]
    requires Elementos(Reemplaza(t, p, Vacio)) == multiset(s[..|s| - 1])
    ensures Elementos(t) == multiset(s)
  {
    var a, b, c := Elementos(Reemplaza(t, p, Vacio)), Elementos(Subarbol(t, p)), Elementos(t);
    assert a + b == c + multiset{} by {
      VerticeEsPosicion(t, p);
      ElementosReemplaza(t, p, Vacio);
      assert Elementos<A>(Vacio) == multiset{};
    }
    assert b == multiset{s[|s| - 1]} by {
      var v := Subarbol(t, p);
      assert Elementos(v) == Elementos(v.izq) + multiset{v.elem} + Elementos(v.der);
    }
    SumaUltimo(a, b, c, s);
  }

  /** The multiset algebra of `QuitaUltimoElementos`. */
  lemma {:induction false} SumaUltimo(a: multiset<int>, b: multiset<int>, c: multiset<int>, s: seq<int>)
    requires |s| >= 1 && a + b == c + multiset{}
    requires a == multiset(s[..|s| - 1]) && b == multiset{s[|s| - 1]}
    ensures c == multiset(s)
  {
    MulticonjuntoUltimo(s);
    forall z
      ensures c[z] == multiset(s)[z]
    {
      assert (a + b)[z] == (c + multiset{})[z];
    }
  }

  /** A sequence is its prefix and its last element. */
  lemma {:induction false} MulticonjuntoUltimo(s: seq<int>)
    requires |s| >= 1
    ensures multiset(s) == multiset(s[..|s| - 1]) + multiset{s[|s| - 1]}
  {
    assert s == s[..|s| - 1] + [s[|s| - 1]];
  }

  /** The height of a complete tree with `n >= 1` vertices is the floor of
      the base-2 logarithm of `n`: the last vertex is at that depth and no
      vertex is deeper. */
  lemma {:induction false} AlturaCompleto<A>(t: Arbol<A>, n: nat)
    requires Completo(t, n) && n >= 1
    ensures AlturaDe(t) == Log2(n)
  {
    assert EsVertice(t, Ruta(n));
    AlturaCota(t, Ruta(n));
    RutaLongitud(n);
    var p := MasProfundo(t);
    NumeroDeVertice(t, n, p);
    RutaIndice(p);
    RutaLongitud(Indice(p));
    Log2Monotono(Indice(p), n);
  }

  /** Where `agrega` puts vertex `n + 1`: below vertex `(n + 1) / 2`, the
      first vertex in breadth-first order that misses a child, on the left
      if it misses both. */
  lemma {:induction false} PrimerHueco<A>(t: Arbol<A>, n: nat)
    requires Completo(t, n) && n >= 1
    ensures var k := (n + 1) / 2;
      && (forall i :: 1 <= i < k ==>
            EsVertice(t, Ruta(i) + [Izq]) && EsVertice(t, Ruta(i) + [Der]))
      && EsVertice(t, Ruta(k))
      && (!EsVertice(t, Ruta(k) + [Izq]) <==> n % 2 == 1)
      && !EsVertice(t, Ruta(k) + [Der])
      && Ruta(n + 1) == Ruta(k) + [if n % 2 == 1 then Izq else Der]
  {
    LlenosAntes(t, n, (n + 1) / 2);
    if n % 2 == 1 {
      HuecoIzquierdo(t, n);
    } else {
      HuecoDerecho(t, n);
    }
  }

  /** With an odd number of vertices, vertex `n + 1` is the left child of
      vertex `(n + 1) / 2`, which has no children yet. */
  lemma {:induction false} HuecoIzquierdo<A>(t: Arbol<A>, n: nat)
    requires Completo(t, n) && n >= 1 && n % 2 == 1
    ensures var k := (n + 1) / 2;
      && EsVertice(t, Ruta(k))
      && !EsVertice(t, Ruta(k) + [Izq]) && !EsVertice(t, Ruta(k) + [Der])
      && Ruta(n + 1) == Ruta(k) + [Izq]
  {
    var k := (n + 1) / 2;
    RutaHijos(k);
    MismaRuta(n + 1, 2 * k);
    assert !EsVertice(t, Ruta(2 * k));
    assert !EsVertice(t, Ruta(2 * k + 1));
  }

  /** With an even number of vertices, vertex `n + 1` is the right child of
      vertex `(n + 1) / 2`, which has its left child already. */
  lemma {:induction false} HuecoDerecho<A>(t: Arbol<A>, n: nat)
    requires Completo(t, n) && n >= 1 && n % 2 == 0
    ensures var k := (n + 1) / 2;
      && EsVertice(t, Ruta(k))
      && EsVertice(t, Ruta(k) + [Izq]) && !EsVertice(t, Ruta(k) + [Der])
      && Ruta(n + 1) == Ruta(k) + [Der]
  {
    var k := (n + 1) / 2;
    RutaHijos(k);
    MismaRuta(n + 1, 2 * k + 1);
    assert EsVertice(t, Ruta(2 * k));
    assert !EsVertice(t, Ruta(2 * k + 1));
  }

  /** Every vertex numbered below `k` has both children when `2k - 1`
      vertices or more are there. */
  lemma {:induction false} LlenosAntes<A>(t: Arbol<A>, n: nat, k: nat)
    requires Completo(t, n) && 2 * k <= n + 1
    ensures forall i :: 1 <= i < k ==>
      EsVertice(t, Ruta(i) + [Izq]) && EsVertice(t, Ruta(i) + [Der])
  {
    forall i | 1 <= i < k
      ensures EsVertice(t, Ruta(i) + [Izq]) && EsVertice(t, Ruta(i) + [Der])
    {
      RutaHijos(i);
      assert EsVertice(t, Ruta(2 * i)) && EsVertice(t, Ruta(2 * i + 1));
    }
  }

  /** The step of `agrega`'s walk at vertex `k`, with no vertex before it
      missing a child: a missing left child is the place of vertex `n + 1`,
      and so is a missing right child when the left one is there. */
  lemma {:induction false} HuecoEn<A>(t: Arbol<A>, n: nat, k: nat)
    requires Completo(t, n) && 1 <= k <= n && 2 * k <= n + 1
    ensures !EsVertice(t, Ruta(k) + [Izq]) ==> Ruta(k) + [Izq] == Ruta(n + 1)
    ensures EsVertice(t, Ruta(k) + [Izq]) && !EsVertice(t, Ruta(k) + [Der]) ==>
      Ruta(k) + [Der] == Ruta(n + 1)
  {
    RutaHijos(k);
    if 2 * k == n + 1 {
      MismaRuta(2 * k, n + 1);
    } else if 2 * k + 1 == n + 1 {
      MismaRuta(2 * k + 1, n + 1);
      assert EsVertice(t, Ruta(2 * k));
    } else {
      assert EsVertice(t, Ruta(2 * k)) && EsVertice(t, Ruta(2 * k + 1));
    }
  }

  /** The smaller of two numbers. */
  function Min(a: int, b: int): int
  {
    if a <= b then a else b
  }

  /** The queue of the breadth-first walks after `k - 1` vertices are taken
      out of it: the vertices from `k` to the last child pushed so far. */
  function ColaBfs(k: nat, n: nat): seq<seq<Dir>>
    requires 1 <= k <= n + 1
  {
    Rutas(k, Min(2 * k, n + 1))
  }

  /** One step of the walk: taking out vertex `k` and pushing its children
      that are vertices gives the queue for `k + 1`. */
  lemma {:induction false} ColaBfsPaso<A>(t: Arbol<A>, n: nat, k: nat)
    requires Completo(t, n) && 1 <= k <= n
    ensures EsVertice(t, Ruta(k)) && ColaBfs(k, n) != [] && ColaBfs(k, n)[0] == Ruta(k)
    ensures EsVertice(t, Ruta(k) + [Izq]) <==> 2 * k <= n
    ensures EsVertice(t, Ruta(k) + [Der]) <==> 2 * k + 1 <= n
    ensures ColaBfs(k, n)[1..]
      + (if 2 * k <= n then [Ruta(k) + [Izq]] else [])
      + (if 2 * k + 1 <= n then [Ruta(k) + [Der]] else [])
      == ColaBfs(k + 1, n)
  {
    RutaHijos(k);
    assert EsVertice(t, Ruta(2 * k)) <==> 2 * k <= n;
    assert EsVertice(t, Ruta(2 * k + 1)) <==> 2 * k + 1 <= n;
    RutasSinPrimera(k, Min(2 * k, n + 1));
    if 2 * k + 1 <= n {
      RutasMasUna(k + 1, 2 * k);
      RutasMasUna(k + 1, 2 * k + 1);
    } else if 2 * k <= n {
      RutasMasUna(k + 1, 2 * k);
    }
  }

  /** A leaf put at the place of vertex `n + 1` adds its element. */
  /** The tree `agrega` leaves: the new leaf at the place of vertex
      `n + 1`. It is complete with one vertex more, its level order ends
      with the new element and its elements gain one copy of it. */
  ghost function ConHoja<A>(t: Arbol<A>, n: nat, hoja: Arbol<A>): (r: Arbol<A>)
    requires Completo(t, n) && hoja.Nodo? && hoja.izq.Vacio? && hoja.der.Vacio?
    ensures Completo(r, n + 1) && Niveles(r, n + 1) == Niveles(t, n) + [hoja.elem]
    ensures Elementos(r) == Elementos(t) + multiset{hoja.elem}
  {
    AgregaCompleto(t, n, hoja);
    AgregaElementos(t, n, hoja);
    Reemplaza(t, Ruta(n + 1), hoja)
  }

  /** What `ConHoja` promises, with the number of vertices named `m`. */
  lemma {:induction false} ConHojaEs<A>(t: Arbol<A>, n: nat, hoja: Arbol<A>, r: Arbol<A>, m: int)
    requires Completo(t, n) && hoja.Nodo? && hoja.izq.Vacio? && hoja.der.Vacio?
    requires r == Reemplaza(t, Ruta(n + 1), hoja) && m == n + 1
    ensures m >= 0 && Completo(r, m) && Niveles(r, m) == Niveles(t, n) + [hoja.elem]
    ensures Elementos(r) == Elementos(t) + multiset{hoja.elem}
  {
    assert r == ConHoja(t, n, hoja);
  }

  lemma {:induction false} AgregaElementos<A>(t: Arbol<A>, n: nat, hoja: Arbol<A>)
    requires Completo(t, n) && hoja.Nodo? && hoja.izq.Vacio? && hoja.der.Vacio?
    ensures Elementos(Reemplaza(t, Ruta(n + 1), hoja)) == Elementos(t) + multiset{hoja.elem}
  {
    SiguienteEsPosicion(t, n);
    ElementosReemplaza(t, Ruta(n + 1), hoja);
    SubarbolVacio<A>(Ruta(n + 1));
    assert Elementos(hoja) == multiset{hoja.elem};
  }

  /** A root without children is the only vertex. */
  lemma {:induction false} RaizHoja<A>(t: Arbol<A>, n: nat)
    requires Completo(t, n) && t.Nodo? && t.izq.Vacio? && t.der.Vacio?
    ensures n == 1 && Ruta(n) == []
  {
    assert EsVertice(t, Ruta(1));
    assert Ruta(2) == [Izq];
    assert !EsVertice(t, Ruta(2));
    MismaRuta(n, 1);
  }

  /** The number of the vertex at `p`. */
  function NumeroEn<A>(t: Arbol<A>, n: nat, p: seq<Dir>): (j: nat)
    requires Completo(t, n) && EsVertice(t, p)
    ensures 1 <= j <= n && Ruta(j) == p
  {
    NumeroDeVertice(t, n, p);
    RutaIndice(p);
    Indice(p)
  }

  /** The tree `elimina` leaves when it takes out vertex `j`: vertex `j`
      takes the last vertex's element and the last vertex is cut. It is
      complete with one vertex less, and its level order is the old one
      with the element at `j` replaced by the last. */
  ghost function SinVertice<A>(t: Arbol<A>, n: nat, j: nat): (r: Arbol<A>)
    requires Completo(t, n) && 1 <= j <= n
    ensures Completo(r, n - 1)
    ensures Niveles(r, n - 1) == QuitaEn(Niveles(t, n), j - 1)
  {
    EliminaCompleto(t, n, j);
    Reemplaza(Intercambia(t, Ruta(j), Ruta(n)), Ruta(n), Vacio)
  }

  /** What `SinVertice` promises, with the number of vertices left named
      `m`. */
  lemma {:induction false} SinVerticeEs<A>(t: Arbol<A>, n: nat, j: nat, r: Arbol<A>, m: int)
    requires Completo(t, n) && 1 <= j <= n && m == n - 1
    requires r == SinVertice(t, n, j)
    ensures m >= 0 && Completo(r, m) && Niveles(r, m) == QuitaEn(Niveles(t, n), j - 1)
  {
  }

  /** Taking out vertex `j` the way `elimina` does loses one copy of its
      element. */
  lemma {:induction false} EliminaElementos<A>(t: Arbol<A>, n: nat, j: nat)
    requires Completo(t, n) && 1 <= j <= n
    ensures Elementos(SinVertice(t, n, j)) == Elementos(t) - multiset{Niveles(t, n)[j - 1]}
  {
    var p, u := Ruta(j), Ruta(n);
    assert EsVertice(t, p);
    UltimoEsHoja(t, n);
    HojaSinElemento(t, p, u);
  }

  /** Exchanging the element at `p` with the one of a leaf at `u`, then
      cutting that leaf, loses one copy of the element at `p`. */
  lemma {:induction false} HojaSinElemento<A>(t: Arbol<A>, p: seq<Dir>, u: seq<Dir>)
    requires EsVertice(t, p) && EsVertice(t, u)
    requires Subarbol(t, u).izq.Vacio? && Subarbol(t, u).der.Vacio?
    ensures EsPosicion(Intercambia(t, p, u), u)
    ensures Elementos(Reemplaza(Intercambia(t, p, u), u, Vacio))
      == Elementos(t) - multiset{Subarbol(t, p).elem}
  {
    var t2 := Intercambia(t, p, u);
    IntercambiaElementos(t, p, u);
    IntercambiaEfecto(t, p, u, u);
    IntercambiaEfecto(t, p, u, u + [Izq]);
    IntercambiaEfecto(t, p, u, u + [Der]);
    SubarbolConcatena(t, u, [Izq]);
    SubarbolConcatena(t, u, [Der]);
    SubarbolConcatena(t2, u, [Izq]);
    SubarbolConcatena(t2, u, [Der]);
    QuitaHojaElementos(t2, u);
    VerticeEsPosicion(t2, u);
    MenosUno(Elementos(Reemplaza(t2, u, Vacio)), Elementos(t), Subarbol(t, p).elem);
  }

  /** Cutting a leaf loses its element. */
  lemma {:induction false} QuitaHojaElementos<A>(t: Arbol<A>, u: seq<Dir>)
    requires EsVertice(t, u)
    requires Subarbol(t, u).izq.Vacio? && Subarbol(t, u).der.Vacio?
    ensures Elementos(Reemplaza(t, u, Vacio)) + multiset{Subarbol(t, u).elem} == Elementos(t)
  {
    var v := Subarbol(t, u);
    assert Elementos(Reemplaza(t, u, Vacio)) + Elementos(v) == Elementos(t) + Elementos<A>(Vacio) by {
      VerticeEsPosicion(t, u);
      ElementosReemplaza(t, u, Vacio);
    }
    assert Elementos(v) == Elementos<A>(Vacio) + multiset{v.elem} + Elementos<A>(Vacio);
    Hoja(Elementos(Reemplaza(t, u, Vacio)), Elementos(t), Elementos<A>(Vacio), v.elem, Elementos(v));
  }

  /** Writing `e` at a vertex trades one copy of its old element for `e`. */
  lemma {:induction false} ConElementoElementos<A>(t: Arbol<A>, p: seq<Dir>, e: int)
    requires EsVertice(t, p)
    ensures Elementos(ConElemento(t, p, e)) + multiset{Subarbol(t, p).elem}
      == Elementos(t) + multiset{e}
  {
    var v := Subarbol(t, p);
    var w := Nodo(v.izq, e, v.info, v.der);
    assert Elementos(ConElemento(t, p, e)) + Elementos(v) == Elementos(t) + Elementos(w) by {
      VerticeEsPosicion(t, p);
      ElementosReemplaza(t, p, w);
    }
    Cancela(Elementos(ConElemento(t, p, e)), Elementos(t), Elementos(v.izq), Elementos(v.der),
      v.elem, e, Elementos(v), Elementos(w));
  }

  /** Exchanging two elements keeps the elements. */
  lemma {:induction false} IntercambiaElementos<A>(t: Arbol<A>, p: seq<Dir>, q: seq<Dir>)
    requires EsVertice(t, p) && EsVertice(t, q)
    ensures Elementos(Intercambia(t, p, q)) == Elementos(t)
  {
    var a, b := Subarbol(t, p).elem, Subarbol(t, q).elem;
    var t1 := ConElemento(t, p, b);
    ConElementoElementos(t, p, b);
    ConElementoEfecto(t, p, b, q);
    ConElementoElementos(t1, q, a);
    DaYToma(Elementos(Intercambia(t, p, q)), Elementos(t1), Elementos(t), a, b);
  }

  /** Multiset arithmetic: `x` plus a vertex `l + {a} + r` is `y` plus the
      same vertex holding `e` instead. */
  lemma {:induction false} Cancela(x: multiset<int>, y: multiset<int>, l: multiset<int>, r: multiset<int>,
                a: int, e: int, v: multiset<int>, w: multiset<int>)
    requires v == l + multiset{a} + r && w == l + multiset{e} + r
    requires x + v == y + w
    ensures x + multiset{a} == y + multiset{e}
  {
    forall z
      ensures (x + multiset{a})[z] == (y + multiset{e})[z]
    {
      assert (x + v)[z] == (y + w)[z];
    }
  }

  /** Multiset arithmetic: `x` plus a leaf holding `a` is `y` plus an empty
      tree. */
  lemma {:induction false} Hoja(x: multiset<int>, y: multiset<int>, o: multiset<int>, a: int, v: multiset<int>)
    requires o == multiset{} && v == o + multiset{a} + o && x + v == y + o
    ensures x + multiset{a} == y
  {
    forall z
      ensures (x + multiset{a})[z] == y[z]
    {
      assert (x + v)[z] == (y + o)[z];
    }
  }

  /** Multiset arithmetic: trading `a` for `b` and back again. */
  lemma {:induction false} DaYToma(x: multiset<int>, y: multiset<int>, z: multiset<int>, a: int, b: int)
    requires y + multiset{a} == z + multiset{b}
    requires x + multiset{b} == y + multiset{a}
    ensures x == z
  {
    forall c
      ensures x[c] == z[c]
    {
      assert (x + multiset{b})[c] == (z + multiset{b})[c];
    }
  }

  /** Multiset arithmetic: adding one copy of `a` to `x` gives `y`. */
  lemma {:induction false} MenosUno(x: multiset<int>, y: multiset<int>, a: int)
    requires x + multiset{a} == y
    ensures x == y - multiset{a}
  {
    forall z
      ensures x[z] == (y - multiset{a})[z]
    {
      assert (x + multiset{a})[z] == y[z];
    }
  }


  /** `elimina` on the vertex at `p`: the element it loses is the one at
      `p`. */
  lemma {:induction false} EliminaCorrecto<A>(t: Arbol<A>, n: nat, p: seq<Dir>)
    requires Completo(t, n) && EsVertice(t, p)
    ensures Elementos(SinVertice(t, n, NumeroEn(t, n, p)))
      == Elementos(t) - multiset{Subarbol(t, p).elem}
  {
    var j := NumeroEn(t, n, p);
    EliminaElementos(t, n, j);
    assert Niveles(t, n)[j - 1] == Subarbol(t, p).elem;
  }

  /** The breadth-first walk visits every vertex, nothing else, and
      nothing twice. */
  lemma {:induction false} VisitaCadaVertice<A>(t: Arbol<A>, n: nat)
    requires Completo(t, n)
    ensures forall p :: EsVertice(t, p) <==> p in Rutas(1, n + 1)
    ensures SinRepetidos(Rutas(1, n + 1))
  {
    var r := Rutas(1, n + 1);
    forall p
      ensures EsVertice(t, p) <==> p in r
    {
      NumeroDeVertice(t, n, p);
      RutaIndice(p);
      if EsVertice(t, p) {
        assert r[Indice(p) - 1] == p;
      }
    }
    forall i, j | 0 <= i < j < n
      ensures r[i] != r[j]
    {
      if r[i] == r[j] {
        RutaInyectiva(i + 1, j + 1);
      }
    }
  }

  /** The empty tree is complete with no vertices. */
  lemma {:induction false} VacioCompleto<A>()
    ensures Completo<A>(Vacio, 0)
  {
    forall i: nat | i >= 1
      ensures !EsVertice<A>(Vacio, Ruta(i))
    {
      SubarbolVacio<A>(Ruta(i));
    }
  }

  /* ---------- The class ---------- */

  /** `ArbolBinarioCompleto`: the root and the count `elementos`; the tree
      is complete with `elementos` vertices. */
  class ArbolBinarioCompleto {
    var raiz: Arbol<()>
    var elementos: int

    ghost predicate Valid()
      reads this
    {
      elementos >= 0 && Completo(raiz, elementos)
    }

    /** An empty tree. */
    constructor()
      ensures Valid() && raiz == Vacio && elementos == 0
    {
      raiz := Vacio;
      elementos := 0;
      VacioCompleto<()>();
    }

    /** `agrega`: null is refused with IllegalArgumentException; an empty
        tree gets the new vertex as root; otherwise a breadth-first walk
        stops at the first vertex missing a child and hangs the new vertex
        there, on the left if the left child is missing. The new vertex is
        vertex `elementos + 1`, and its element joins the end of the level
        order. */
    method Agrega(x: Option<int>) returns (s: Salida)
      requires Valid()
      modifies this
      ensures Valid()
      ensures x.None? ==> (s == Lanza(ArgumentoIlegal) && raiz == old(raiz)
        && elementos == old(elementos))
      ensures x.Some? ==> (s == Normal && elementos == old(elementos) + 1
        && raiz == Reemplaza(old(raiz), Ruta(old(elementos) + 1), Nodo(Vacio, x.valor, (), Vacio))
        && Niveles(raiz, elementos) == old(Niveles(raiz, elementos)) + [x.valor]
        && Elementos(raiz) == old(Elementos(raiz)) + multiset{x.valor})
    {
      if x.None? {
        s := Lanza(ArgumentoIlegal);
      } else {
        var hoja := Nodo(Vacio, x.valor, (), Vacio);
        ghost var t, n := raiz, elementos;
        var r: Arbol<()>;
        if raiz.Vacio? {
          assert Ruta(n + 1) == [] by {
            assert !EsVertice(t, Ruta(1));
            MismaRuta(n + 1, 1);
          }
          r := hoja;
        } else {
          var p := Hueco();
          r := Reemplaza(raiz, p, hoja);
        }
        elementos := elementos + 1;
        raiz := r;
        ConHojaEs(t, n, hoja, raiz, elementos);
        s := Normal;
      }
    }

    /** The breadth-first walk of `agrega`: vertices are taken out of a
        queue that starts with the root, the walk stops at the first one
        missing its left child, or else its right child, and that child's
        place is where the new vertex goes: the place of vertex
        `elementos + 1`. Vertices with both children push them, left
        first. */
    method Hueco() returns (p: seq<Dir>)
      requires Valid() && raiz.Nodo?
      ensures p == Ruta(elementos + 1)
    {
      ghost var t, n := raiz, elementos;
      assert n >= 1 by {
        assert EsVertice(t, Ruta(1));
      }
      var cola := [Ruta(1)];
      ghost var k := 1;
      assert cola == ColaBfs(1, n);
      while |cola| > 0
        invariant 1 <= k && 2 * k <= n + 1
        invariant cola == ColaBfs(k, n)
        decreases n - k
      {
        ColaBfsPaso(t, n, k);
        HuecoEn(t, n, k);
        var v := cola[0];
        cola := cola[1..];
        if Subarbol(raiz, v + [Izq]).Vacio? {
          return v + [Izq];
        }
        if Subarbol(raiz, v + [Der]).Vacio? {
          return v + [Der];
        }
        cola := cola + [v + [Izq]] + [v + [Der]];
        k := k + 1;
      }
      assert false;
    }

    /** `ultimoCola`: a breadth-first walk of the whole tree; the last
        vertex taken out of the queue is the last vertex, number `n` of a
        complete tree with `n` vertices. It does not look at `elementos`,
        which `elimina` has already decreased when it calls it. */
    method UltimoCola(ghost n: nat) returns (u: seq<Dir>)
      requires Completo(raiz, n) && raiz.Nodo?
      ensures n >= 1 && u == Ruta(n) && EsVertice(raiz, u)
    {
      ghost var t := raiz;
      assert n >= 1 by {
        assert EsVertice(t, Ruta(1));
      }
      var cola := [Ruta(1)];
      u := Ruta(1);
      ghost var k := 1;
      assert cola == ColaBfs(1, n);
      while |cola| > 0
        invariant 1 <= k <= n + 1
        invariant cola == ColaBfs(k, n)
        invariant u == Ruta(if k == 1 then 1 else k - 1)
        decreases n + 1 - k
      {
        ColaBfsPaso(t, n, k);
        u := cola[0];
        cola := cola[1..];
        if Subarbol(raiz, u + [Izq]).Nodo? {
          cola := cola + [u + [Izq]];
        }
        if Subarbol(raiz, u + [Der]).Nodo? {
          cola := cola + [u + [Der]];
        }
        k := k + 1;
      }
      assert k == n + 1;
    }

    /** `elimina`: nothing for an element `busca` does not find; otherwise
        the tree loses the vertex found the way `SinVerticeEn` says, keeps
        complete, and loses one copy of the element. */
    method Elimina(x: Option<int>)
      requires Valid()
      modifies this
      ensures Valid()
      ensures x.None? || x.valor !in old(Elementos(raiz)) ==>
        (raiz == old(raiz) && elementos == old(elementos))
      ensures x.Some? && x.valor in old(Elementos(raiz)) ==>
        var j := NumeroEn(old(raiz), old(elementos), BuscaEn(old(raiz), x).valor);
        elementos == old(elementos) - 1
        && raiz == SinVertice(old(raiz), old(elementos), j)
        && Niveles(raiz, elementos) == QuitaEn(old(Niveles(raiz, elementos)), j - 1)
        && Elementos(raiz) == old(Elementos(raiz)) - multiset{x.valor}
    {
      var e := BuscaEn(raiz, x);
      if e.Some? {
        ghost var t, n := raiz, elementos;
        ghost var j := NumeroEn(t, n, e.valor);
        EliminaCorrecto(t, n, e.valor);
        var r := SinVerticeEn(e.valor, j);
        elementos := elementos - 1;
        raiz := r;
        SinVerticeEs(t, n, j, raiz, elementos);
      }
    }

    /** The part of `elimina` after the search: with the vertex `p` found,
        a root without children leaves an empty tree; otherwise the element
        at `p` is exchanged with the one at the last vertex, and that vertex
        is cut from its parent. */
    method SinVerticeEn(p: seq<Dir>, ghost j: nat) returns (r: Arbol<()>)
      requires Valid() && 1 <= j <= elementos && p == Ruta(j)
      ensures r == SinVertice(raiz, elementos, j)
    {
      assert raiz.Nodo? by {
        assert EsVertice(raiz, Ruta(1));
      }
      if raiz.izq.Vacio? && raiz.der.Vacio? {
        RaizHoja(raiz, elementos);
        r := Vacio;
      } else {
        var u := UltimoCola(elementos);
        r := Intercambia(raiz, p, u);
        r := Reemplaza(r, u, Vacio);
      }
    }

    /** `altura`: -1 for an empty tree, otherwise the floor of the base-2
        logarithm of `elementos`, which is the height of the tree. */
    method Altura() returns (r: int)
      requires Valid()
      ensures r == AlturaDe(raiz)
    {
      if raiz.Vacio? {
        return -1;
      }
      assert elementos >= 1 by {
        assert EsVertice(raiz, Ruta(1));
      }
      AlturaCompleto(raiz, elementos);
      r := Log2(elementos);
    }

    /** `bfs`: the vertices handed to the action, in the order the
        breadth-first walk takes them out of its queue: vertices 1 to
        `elementos`, which are all the vertices, each once. */
    method Bfs() returns (visitas: seq<seq<Dir>>)
      requires Valid()
      ensures visitas == Rutas(1, elementos + 1)
      ensures forall p :: EsVertice(raiz, p) <==> p in visitas
      ensures SinRepetidos(visitas)
      ensures forall i :: 0 <= i < |visitas| ==>
        EsVertice(raiz, visitas[i]) && Subarbol(raiz, visitas[i]).elem == Niveles(raiz, elementos)[i]
    {
      ghost var t, n := raiz, elementos;
      VisitaCadaVertice(t, n);
      if raiz.Vacio? {
        assert n == 0 by {
          assert !EsVertice(t, Ruta(1));
        }
        return [];
      }
      assert n >= 1 by {
        assert EsVertice(t, Ruta(1));
      }
      var cola := [Ruta(1)];
      visitas := [];
      ghost var k := 1;
      assert cola == ColaBfs(1, n);
      while |cola| > 0
        invariant 1 <= k <= n + 1
        invariant cola == ColaBfs(k, n)
        invariant visitas == Rutas(1, k)
        decreases n + 1 - k
      {
        ColaBfsPaso(t, n, k);
        var v := cola[0];
        cola := cola[1..];
        RutasMasUna(1, k);
        visitas := visitas + [v];
        if Subarbol(raiz, v + [Izq]).Nodo? {
          cola := cola + [v + [Izq]];
        }
        if Subarbol(raiz, v + [Der]).Nodo? {
          cola := cola + [v + [Der]];
        }
        k := k + 1;
      }
      assert k == n + 1;
    }

    /** `iterator`: an iterator with the whole level order to yield. */
    method Iterator() returns (it: Iterador)
      requires Valid()
      ensures fresh(it) && it.Valid() && it.Pendientes() == Niveles(raiz, elementos)
    {
      it := new Iterador(raiz, elementos);
    }
  }

  /** The iterator: a queue of vertices still to be yielded, the root at
      first; `next` yields the element of the first one and queues its
      children. */
  /** The level order from vertex `k` is vertex `k`'s element followed by
      the level order from vertex `k + 1`. */
  lemma {:induction false} PendientesPaso<A>(t: Arbol<A>, n: nat, k: nat)
    requires Completo(t, n) && 1 <= k <= n
    ensures Niveles(t, n)[k - 1..] == [Subarbol(t, Ruta(k)).elem] + Niveles(t, n)[k..]
  {
  }

  class Iterador {
    const arbol: Arbol<()>
    ghost const n: nat
    var cola: seq<seq<Dir>>
    ghost var k: nat

    /** The queue holds vertices `k` onwards, as the walk has pushed them. */
    ghost predicate Valid()
      reads this
    {
      Completo(arbol, n) && 1 <= k <= n + 1 && cola == ColaBfs(k, n)
    }

    /** The elements still to be yielded: the level order from vertex `k`. */
    ghost function Pendientes(): seq<int>
      reads this
      requires Valid()
    {
      Niveles(arbol, n)[k - 1..]
    }

    constructor(t: Arbol<()>, ghost m: nat)
      requires Completo(t, m)
      ensures Valid() && arbol == t && Pendientes() == Niveles(t, m)
    {
      arbol := t;
      n := m;
      k := 1;
      if t.Nodo? {
        cola := [[]];
      } else {
        cola := [];
      }
      new;
      assert EsVertice(t, Ruta(1)) <==> 1 <= m;
      assert Ruta(1) == [];
    }

    /** `hasNext`: whether the queue is non-empty, which is whether
        anything is left to yield. */
    method HasNext() returns (r: bool)
      requires Valid()
      ensures r <==> Pendientes() != []
    {
      r := |cola| > 0;
    }

    /** `next`: takes the first vertex out of the queue, queues its
        children left first and yields its element, the next one in level
        order; on an empty queue the removal throws
        NoSuchElementException. */
    method Next() returns (r: Resultado<int>)
      requires Valid()
      modifies this
      ensures Valid()
      ensures r.Falla? <==> old(Pendientes()) == []
      ensures r.Falla? ==> r.excepcion == SinElemento && cola == old(cola) && k == old(k)
      ensures r.Exito? ==> old(Pendientes()) == [r.valor] + Pendientes()
    {
      if |cola| == 0 {
        r := Falla(SinElemento);
      } else {
        ColaBfsPaso(arbol, n, k);
        PendientesPaso(arbol, n, k);
        var c := cola[0];
        cola := cola[1..];
        if Subarbol(arbol, c + [Izq]).Nodo? {
          cola := cola + [c + [Izq]];
        }
        if Subarbol(arbol, c + [Der]).Nodo? {
          cola := cola + [c + [Der]];
        }
        r := Exito(Subarbol(arbol, c).elem);
        k := k + 1;
      }
    }
  }
}
