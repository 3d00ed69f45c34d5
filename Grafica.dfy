/** `Grafica`: an undirected graph whose vertices hold distinct integer
    elements. Each vertex keeps the list of its neighbours and a colour; the
    graph keeps its vertices in insertion order and a count of its edges.
    The vertex objects are represented by their elements: `vertices` is the
    vertex list, `vecinos` maps each element to its neighbour list and
    `color` to its colour. */
module Graficas {
  import opened Comun
  import opened Listas

  /* ---------- Degrees and the edge count ---------- */

  /** The degree of `v`: the length of its neighbour list. */
  ghost function Grado(vecinos: map<int, seq<int>>, v: int): nat
  {
    if v in vecinos then |vecinos[v]| else 0
  }

  /** The sum of the degrees of the vertices `vs`. */
  ghost function SumaGrados(vs: seq<int>, vecinos: map<int, seq<int>>): nat
  {
    if vs == [] then 0 else SumaGrados(vs[..|vs| - 1], vecinos) + Grado(vecinos, vs[|vs| - 1])
  }

  /** How many of the vertices `vs` have `x` in their neighbour list. */
  ghost function Cuenta(vs: seq<int>, vecinos: map<int, seq<int>>, x: int): nat
  {
    if vs == [] then 0
    else
      var v := vs[|vs| - 1];
      Cuenta(vs[..|vs| - 1], vecinos, x) + (if v in vecinos && x in vecinos[v] then 1 else 0)
  }

  /** Every edge appears in the neighbour lists of both its ends. */
  ghost predicate Simetrica(vecinos: map<int, seq<int>>)
  {
    forall u, v :: u in vecinos && v in vecinos[u] ==> v in vecinos && u in vecinos[v]
  }

  /** No vertex lists a neighbour twice or itself. */
  ghost predicate Simple(vecinos: map<int, seq<int>>)
  {
    forall v :: v in vecinos ==> Distintos(vecinos[v]) && v !in vecinos[v]
  }

  /** The sum of degrees splits over a concatenation. */
  lemma {:induction false} SumaConcatena(a: seq<int>, b: seq<int>, vecinos: map<int, seq<int>>)
    ensures SumaGrados(a + b, vecinos) == SumaGrados(a, vecinos) + SumaGrados(b, vecinos)
    decreases |b|
  {
    if b == [] {
      assert a + b == a;
    } else {
      var c := b[..|b| - 1];
      SumaConcatena(a, c, vecinos);
      assert (a + b)[..|a + b| - 1] == a + c;
    }
  }

  /** Two neighbour maps that give the vertices `vs` the same degrees give
      them the same sum of degrees. */
  lemma {:induction false} SumaIgual(vs: seq<int>, m1: map<int, seq<int>>, m2: map<int, seq<int>>)
    requires forall v :: v in vs ==> Grado(m1, v) == Grado(m2, v)
    ensures SumaGrados(vs, m1) == SumaGrados(vs, m2)
    decreases |vs|
  {
    if vs != [] {
      var c := vs[..|vs| - 1];
      assert forall v :: v in c ==> v in vs;
      SumaIgual(c, m1, m2);
    }
  }

  /** The sum of degrees of one vertex is its degree. */
  lemma {:induction false} SumaUno(v: int, vecinos: map<int, seq<int>>)
    ensures SumaGrados([v], vecinos) == Grado(vecinos, v)
  {
    assert [v][..0] == [];
  }

  /** In a sequence of distinct elements, the element at `i` occurs nowhere
      else, and dropping it leaves exactly the other elements, distinct. */
  lemma {:induction false} FueraDeDistintos(s: seq<int>, i: int)
    requires Distintos(s) && 0 <= i < |s|
    ensures s == s[..i] + [s[i]] + s[i + 1..]
    ensures s[i] !in s[..i] && s[i] !in s[i + 1..]
    ensures Distintos(s[..i] + s[i + 1..])
    ensures forall w :: w in s[..i] + s[i + 1..] <==> w in s && w != s[i]
  {
    assert s == s[..i] + [s[i]] + s[i + 1..];
    forall j | 0 <= j < |s| && j != i
      ensures s[j] != s[i]
    {
      DistintosEn(s, i, j);
    }
    DistintosQuita(s, i);
  }

  /** `SinPrimera` on distinct elements drops exactly the given one. */
  lemma {:induction false} SinPrimeraDistintos(s: seq<int>, x: int)
    requires Distintos(s)
    ensures Distintos(SinPrimera(s, x))
    ensures forall w :: w in SinPrimera(s, x) <==> w in s && w != x
  {
    if x in s {
      FueraDeDistintos(s, Indice(s, x));
    }
  }

  /** Changing the neighbour list of one vertex `k` of `vs` changes the sum
      of degrees by the change of its length. */
  lemma {:induction false} SumaCambia(vs: seq<int>, vecinos: map<int, seq<int>>, k: int, l: seq<int>)
    requires Distintos(vs) && k in vs
    ensures SumaGrados(vs, vecinos[k := l]) + Grado(vecinos, k) == SumaGrados(vs, vecinos) + |l|
  {
    var i := Indice(vs, k);
    var a, b := vs[..i], vs[i + 1..];
    FueraDeDistintos(vs, i);
    var m := vecinos[k := l];
    SumaConcatena(a + [k], b, m);
    SumaConcatena(a, [k], m);
    SumaConcatena(a + [k], b, vecinos);
    SumaConcatena(a, [k], vecinos);
    SumaUno(k, m);
    SumaUno(k, vecinos);
    SumaIgual(a, m, vecinos);
    SumaIgual(b, m, vecinos);
  }

  /** Dropping the vertex at `i` drops its degree from the sum. */
  lemma {:induction false} SumaQuita(vs: seq<int>, vecinos: map<int, seq<int>>, i: int)
    requires 0 <= i < |vs|
    ensures SumaGrados(vs[..i] + vs[i + 1..], vecinos) + Grado(vecinos, vs[i]) == SumaGrados(vs, vecinos)
  {
    assert vs == vs[..i] + [vs[i]] + vs[i + 1..];
    SumaConcatena(vs[..i] + [vs[i]], vs[i + 1..], vecinos);
    SumaConcatena(vs[..i], [vs[i]], vecinos);
    SumaConcatena(vs[..i], vs[i + 1..], vecinos);
    SumaUno(vs[i], vecinos);
  }

  /** Removing `x` from every neighbour list lowers the sum of degrees by
      the number of lists that held it. */
  lemma {:induction false} SumaMenosCuenta(vs: seq<int>, m0: map<int, seq<int>>, m1: map<int, seq<int>>, x: int)
    requires forall v :: v in vs ==> Grado(m1, v) + (if v in m0 && x in m0[v] then 1 else 0) == Grado(m0, v)
    ensures SumaGrados(vs, m1) + Cuenta(vs, m0, x) == SumaGrados(vs, m0)
    decreases |vs|
  {
    if vs != [] {
      var c := vs[..|vs| - 1];
      assert forall v :: v in c ==> v in vs;
      SumaMenosCuenta(c, m0, m1, x);
      assert vs[|vs| - 1] in vs;
    }
  }

  /** The lists that hold `x`, counted over distinct vertices, are as many
      as the distinct elements of any `ns` naming exactly those vertices. */
  lemma {:induction false} CuentaLista(vs: seq<int>, vecinos: map<int, seq<int>>, x: int, ns: seq<int>)
    requires Distintos(vs) && Distintos(ns)
    requires forall v :: v in ns ==> v in vs && v in vecinos && x in vecinos[v]
    requires forall v :: v in vs && v in vecinos && x in vecinos[v] ==> v in ns
    ensures Cuenta(vs, vecinos, x) == |ns|
    decreases |vs|
  {
    if vs == [] {
      assert |ns| == 0 || ns[0] in ns;
      assert forall v :: v !in ns;
    } else {
      var c := vs[..|vs| - 1];
      var l := vs[|vs| - 1];
      FueraDeDistintos(vs, |vs| - 1);
      assert vs[..|vs| - 1] + vs[|vs|..] == c;
      assert forall v :: v in c <==> v in vs && v != l;
      if l in vecinos && x in vecinos[l] {
        assert l in vs;
        var i := Indice(ns, l);
        FueraDeDistintos(ns, i);
        CuentaLista(c, vecinos, x, ns[..i] + ns[i + 1..]);
      } else {
        CuentaLista(c, vecinos, x, ns);
      }
    }
  }

  /** Handshake step: in a simple symmetric graph whose vertices are `vs`,
      exactly `Grado(x)` neighbour lists hold `x`. */
  lemma {:induction false} CuentaEsGrado(vs: seq<int>, vecinos: map<int, seq<int>>, x: int)
    requires Distintos(vs) && Simetrica(vecinos) && Simple(vecinos)
    requires forall v :: v in vecinos <==> v in vs
    requires x in vecinos
    ensures Cuenta(vs, vecinos, x) == Grado(vecinos, x)
  {
    CuentaLista(vs, vecinos, x, vecinos[x]);
  }

  /* ---------- Walks and reachability ---------- */

  /** `p` is a walk: a non-empty sequence of vertices, each after the first
      a neighbour of the one before it. */
  ghost predicate Camino(vecinos: map<int, seq<int>>, p: seq<int>)
  {
    && |p| > 0
    && (forall i :: 0 <= i < |p| ==> p[i] in vecinos)
    && (forall i :: 0 < i < |p| ==> p[i] in vecinos[p[i - 1]])
  }

  /** `w` can be reached from `v` by a walk. */
  ghost predicate Alcanzable(vecinos: map<int, seq<int>>, v: int, w: int)
  {
    exists p :: Camino(vecinos, p) && p[0] == v && p[|p| - 1] == w
  }

  /** Every vertex can be reached from every vertex. */
  ghost predicate Conexa(vertices: seq<int>, vecinos: map<int, seq<int>>)
  {
    forall v, w :: v in vertices && w in vertices ==> Alcanzable(vecinos, v, w)
  }

  /** The vertices of `s` are closed under taking neighbours. */
  ghost predicate Cerrada(vecinos: map<int, seq<int>>, s: seq<int>)
  {
    forall u, x :: u in s && u in vecinos && x in vecinos[u] ==> x in s
  }

  /** Every vertex of `vecinos` reaches itself. */
  lemma {:induction false} AlcanzableSiMismo(vecinos: map<int, seq<int>>, v: int)
    requires v in vecinos
    ensures Alcanzable(vecinos, v, v)
  {
    assert Camino(vecinos, [v]);
  }

  /** A walk extended by a neighbour of its last vertex is a walk. */
  lemma {:induction false} AlcanzableExtiende(vecinos: map<int, seq<int>>, v: int, u: int, x: int)
    requires Alcanzable(vecinos, v, u) && u in vecinos && x in vecinos[u] && x in vecinos
    ensures Alcanzable(vecinos, v, x)
  {
    var p :| Camino(vecinos, p) && p[0] == v && p[|p| - 1] == u;
    var q := p + [x];
    assert Camino(vecinos, q) && q[0] == v && q[|q| - 1] == x;
  }

  /** A walk that starts in a closed set stays in it. */
  lemma {:induction false} CaminoEnCerrada(vecinos: map<int, seq<int>>, s: seq<int>, p: seq<int>)
    requires Cerrada(vecinos, s) && Camino(vecinos, p) && p[0] in s
    ensures p[|p| - 1] in s
    decreases |p|
  {
    if |p| > 1 {
      var q := p[..|p| - 1];
      assert Camino(vecinos, q);
      CaminoEnCerrada(vecinos, s, q);
      var u, x := p[|p| - 2], p[|p| - 1];
      assert u == q[|q| - 1] && u in s && u in vecinos;
      assert x in vecinos[u];
      assert u in s && u in vecinos && x in vecinos[u] ==> x in s;
    }
  }

  /** Everything reachable from a vertex of a closed set is in the set. */
  lemma {:induction false} AlcanzableEnCerrada(vecinos: map<int, seq<int>>, s: seq<int>, v: int, w: int)
    requires Cerrada(vecinos, s) && v in s && Alcanzable(vecinos, v, w)
    ensures w in s
  {
    var p :| Camino(vecinos, p) && p[0] == v && p[|p| - 1] == w;
    CaminoEnCerrada(vecinos, s, p);
  }

  /** In a symmetric graph a walk read backwards is a walk. */
  lemma {:induction false} AlcanzableSimetrica(vecinos: map<int, seq<int>>, v: int, w: int)
    requires Simetrica(vecinos) && Alcanzable(vecinos, v, w)
    ensures Alcanzable(vecinos, w, v)
  {
    var p :| Camino(vecinos, p) && p[0] == v && p[|p| - 1] == w;
    var q := seq(|p|, i requires 0 <= i < |p| => p[|p| - 1 - i]);
    forall i | 0 < i < |q|
      ensures q[i] in vecinos[q[i - 1]]
    {
      var j := |p| - i;
      assert q[i - 1] == p[j] && q[i] == p[j - 1];
      assert p[j] in vecinos[p[j - 1]];
    }
    assert Camino(vecinos, q) && q[0] == w && q[|q| - 1] == v;
  }

  /** Walks compose. */
  lemma {:induction false} AlcanzableTransitiva(vecinos: map<int, seq<int>>, u: int, v: int, w: int)
    requires Alcanzable(vecinos, u, v) && Alcanzable(vecinos, v, w)
    ensures Alcanzable(vecinos, u, w)
  {
    var p :| Camino(vecinos, p) && p[0] == u && p[|p| - 1] == v;
    var q :| Camino(vecinos, q) && q[0] == v && q[|q| - 1] == w;
    var r := p + q[1..];
    forall i | 0 < i < |r|
      ensures r[i] in vecinos[r[i - 1]]
    {
      if i >= |p| {
        assert r[i] == q[i - |p| + 1];
        assert r[i - 1] == q[i - |p|];
      }
    }
    assert Camino(vecinos, r) && r[0] == u && r[|r| - 1] == w;
  }

  /** In a symmetric graph, reaching every vertex from one vertex is
      connectivity. */
  lemma {:induction false} ConexaDesde(vertices: seq<int>, vecinos: map<int, seq<int>>, v: int)
    requires Simetrica(vecinos) && v in vertices
    ensures Conexa(vertices, vecinos) <==> forall w :: w in vertices ==> Alcanzable(vecinos, v, w)
  {
    if forall w :: w in vertices ==> Alcanzable(vecinos, v, w) {
      forall a, b | a in vertices && b in vertices
        ensures Alcanzable(vecinos, a, b)
      {
        AlcanzableSimetrica(vecinos, v, a);
        AlcanzableTransitiva(vecinos, a, v, b);
      }
    }
  }

  /** A graph of a single vertex is connected. */
  lemma {:induction false} UnVerticeConexa(x: int)
    ensures Conexa([x], map[x := []])
  {
    AlcanzableSiMismo(map[x := []], x);
  }

  /** A vertex with a neighbour is one of at least two vertices. */
  lemma {:induction false} VecinoDaDos(vertices: seq<int>, vecinos: map<int, seq<int>>, aristas: int, n: int)
    requires GraficaValida(vertices, vecinos, aristas)
    requires n in vecinos && |vecinos[n]| > 0
    ensures |vertices| >= 2
  {
    var x := vecinos[n][0];
    assert x in vecinos[n];
    assert x != n && x in vertices && n in vertices;
  }

  /** A vertex that reaches another vertex has a neighbour. */
  lemma {:induction false} AlcanzaOtroTieneVecino(vecinos: map<int, seq<int>>, n: int, w: int)
    requires Alcanzable(vecinos, n, w) && w != n
    ensures n in vecinos && |vecinos[n]| > 0
  {
    var p :| Camino(vecinos, p) && p[0] == n && p[|p| - 1] == w;
    assert p[1] in vecinos[p[0]];
  }

  /* ---------- The graph invariant ---------- */

  /** The invariant of `Grafica`: distinct vertices, a neighbour list for
      exactly those vertices, edges recorded at both ends, no repeated
      neighbour and no loop, and `aristas` half the sum of the degrees
      (each edge is counted once). */
  ghost predicate GraficaValida(vertices: seq<int>, vecinos: map<int, seq<int>>, aristas: int)
  {
    && Distintos(vertices)
    && (forall v :: v in vecinos <==> v in vertices)
    && Simetrica(vecinos) && Simple(vecinos)
    && 2 * aristas == SumaGrados(vertices, vecinos)
  }

  /** `agrega` keeps the invariant: a new vertex without neighbours. */
  lemma {:induction false} AgregaValida(vertices: seq<int>, vecinos: map<int, seq<int>>, aristas: int, x: int)
    requires GraficaValida(vertices, vecinos, aristas) && x !in vertices
    ensures GraficaValida(vertices + [x], vecinos[x := []], aristas)
  {
    var m := vecinos[x := []];
    DistintosAgrega(vertices, x);
    assert Distintos(m[x]) by {
      assert forall i, j :: !Diferentes(m[x], i, j) ==> false;
    }
    SumaConcatena(vertices, [x], m);
    SumaUno(x, m);
    SumaIgual(vertices, m, vecinos);
  }

  /** `conecta` keeps the invariant: the new edge is recorded at both ends
      and counted once. */
  lemma {:induction false} ConectaValida(vertices: seq<int>, vecinos: map<int, seq<int>>, aristas: int, a: int, b: int)
    requires GraficaValida(vertices, vecinos, aristas)
    requires a in vertices && b in vertices && a != b && b !in vecinos[a]
    ensures GraficaValida(vertices, vecinos[a := vecinos[a] + [b]][b := vecinos[b] + [a]], aristas + 1)
  {
    var m1 := vecinos[a := vecinos[a] + [b]];
    var m2 := m1[b := vecinos[b] + [a]];
    assert a !in vecinos[b];
    DistintosAgrega(vecinos[a], b);
    DistintosAgrega(vecinos[b], a);
    SumaCambia(vertices, vecinos, a, vecinos[a] + [b]);
    SumaCambia(vertices, m1, b, vecinos[b] + [a]);
  }

  /** `desconecta` keeps the invariant: the edge leaves both lists and the
      count. */
  lemma {:induction false} DesconectaValida(vertices: seq<int>, vecinos: map<int, seq<int>>, aristas: int, a: int, b: int)
    requires GraficaValida(vertices, vecinos, aristas)
    requires a in vertices && b in vertices && b in vecinos[a]
    ensures GraficaValida(vertices, vecinos[a := SinPrimera(vecinos[a], b)][b := SinPrimera(vecinos[b], a)], aristas - 1)
  {
    var m1 := vecinos[a := SinPrimera(vecinos[a], b)];
    var m2 := m1[b := SinPrimera(vecinos[b], a)];
    QuitaAristaEstructura(vecinos, a, b);
    assert a in vecinos[b] && a != b;
    SumaCambia(vertices, vecinos, a, SinPrimera(vecinos[a], b));
    SumaCambia(vertices, m1, b, SinPrimera(vecinos[b], a));
  }

  /** Taking an edge out of both lists keeps the lists symmetric and
      simple. */
  lemma {:induction false} QuitaAristaEstructura(vecinos: map<int, seq<int>>, a: int, b: int)
    requires Simetrica(vecinos) && Simple(vecinos) && a in vecinos && b in vecinos[a]
    ensures var m := vecinos[a := SinPrimera(vecinos[a], b)][b := SinPrimera(vecinos[b], a)];
              Simetrica(m) && Simple(m)
  {
    var m := vecinos[a := SinPrimera(vecinos[a], b)][b := SinPrimera(vecinos[b], a)];
    SinPrimeraDistintos(vecinos[a], b);
    SinPrimeraDistintos(vecinos[b], a);
    assert forall v :: v in m ==> forall w :: w in m[v] <==> w in vecinos[v] && (v == a ==> w != b) && (v == b ==> w != a);
  }

  /** The neighbour lists after `elimina(x)` has gone over every vertex:
      `x` is gone from each of them. */
  ghost predicate SinX(vecinos: map<int, seq<int>>, m: map<int, seq<int>>, x: int)
  {
    (forall v :: v in m <==> v in vecinos)
    && forall v :: v in vecinos ==> m[v] == SinPrimera(vecinos[v], x)
  }

  /** `SinPrimera` on distinct elements drops exactly the given one,
      stated for one element. */
  lemma {:induction false} SinPrimeraEn(s: seq<int>, x: int, w: int)
    requires Distintos(s)
    ensures w in SinPrimera(s, x) <==> w in s && w != x
  {
    SinPrimeraDistintos(s, x);
  }

  /** Taking a vertex out of the lists of the others and dropping its own
      list keeps the lists simple. */
  lemma {:induction false} QuitaVerticeSimple(vecinos: map<int, seq<int>>, x: int, m: map<int, seq<int>>)
    requires Simple(vecinos) && SinX(vecinos, m, x)
    ensures Simple(m - {x})
  {
    forall v | v in m - {x}
      ensures Distintos(m[v]) && v !in m[v]
    {
      SinPrimeraDistintos(vecinos[v], x);
      SinPrimeraEn(vecinos[v], x, v);
    }
  }

  /** Taking a vertex out of the lists of the others and dropping its own
      list keeps the lists symmetric. */
  lemma {:induction false} QuitaVerticeSimetrica(vecinos: map<int, seq<int>>, x: int, m: map<int, seq<int>>)
    requires Simetrica(vecinos) && Simple(vecinos) && SinX(vecinos, m, x)
    ensures Simetrica(m - {x})
  {
    var m2 := m - {x};
    forall u | u in m2
      ensures forall v :: v in m2[u] ==> v in m2 && u in m2[v]
    {
      QuitaVerticeFila(vecinos, x, m, u);
    }
  }

  /** Every edge `u`–`v` left after taking `x` out is still recorded at
      both ends. */
  lemma {:induction false} QuitaVerticeFila(vecinos: map<int, seq<int>>, x: int, m: map<int, seq<int>>, u: int)
    requires Simetrica(vecinos) && Simple(vecinos) && SinX(vecinos, m, x)
    requires u in m && u != x
    ensures forall v :: v in m[u] ==> v in m && v != x && u in m[v]
  {
    SinPrimeraDistintos(vecinos[u], x);
    forall v | v in m[u]
      ensures v in m && v != x && u in m[v]
    {
      assert v in vecinos[u] && v != x;
      assert v in vecinos && u in vecinos[v];
      SinPrimeraEn(vecinos[v], x, u);
    }
  }

  /** `elimina` keeps the invariant: the vertex, its list and every edge at
      it are gone, and the count drops by its degree. */
  lemma {:induction false} EliminaValida(vertices: seq<int>, vecinos: map<int, seq<int>>, aristas: int, x: int, m: map<int, seq<int>>)
    requires GraficaValida(vertices, vecinos, aristas) && x in vertices && SinX(vecinos, m, x)
    ensures GraficaValida(SinPrimera(vertices, x), m - {x}, aristas - Grado(vecinos, x))
  {
    var i := Indice(vertices, x);
    var vs := vertices[..i] + vertices[i + 1..];
    var m2 := m - {x};
    FueraDeDistintos(vertices, i);
    assert SinPrimera(vertices, x) == vs;
    QuitaVerticeSimple(vecinos, x, m);
    QuitaVerticeSimetrica(vecinos, x, m);
    SumaIgual(vs, m2, m);
    SumaQuita(vertices, m, i);
    SinPrimeraDistintos(vecinos[x], x);
    SumaMenosCuenta(vertices, vecinos, m, x);
    CuentaEsGrado(vertices, vecinos, x);
  }

  /* ---------- Connectivity as `esConexa` computes it ---------- */

  /** What `esConexa` reports: every vertex is reachable from the first one
      and, because the first vertex is only ever marked through one of its
      neighbours, the first vertex has a neighbour. That is exactly a
      connected graph of at least two vertices. */
  lemma {:induction false} ConexaComoEscrita(vertices: seq<int>, vecinos: map<int, seq<int>>, aristas: int, n: int)
    requires GraficaValida(vertices, vecinos, aristas) && n in vertices
    ensures (forall w :: w in vertices ==> Alcanzable(vecinos, n, w) && (w != n || |vecinos[n]| > 0))
            <==> Conexa(vertices, vecinos) && |vertices| >= 2
  {
    ConexaDesde(vertices, vecinos, n);
    if forall w :: w in vertices ==> Alcanzable(vecinos, n, w) && (w != n || |vecinos[n]| > 0) {
      assert |vecinos[n]| > 0;
      VecinoDaDos(vertices, vecinos, aristas, n);
    }
    if Conexa(vertices, vecinos) && |vertices| >= 2 {
      DistintosEn(vertices, 0, 1);
      var w := if vertices[0] != n then vertices[0] else vertices[1];
      assert w in vertices && w != n;
      AlcanzaOtroTieneVecino(vecinos, n, w);
    }
  }

  /* ---------- Inverse operations ---------- */

  /** The neighbour lists left by `elimina(x)`: no list for `x`, and `x`
      taken out of every other list. */
  ghost function Eliminado(vecinos: map<int, seq<int>>, x: int): map<int, seq<int>>
  {
    map v | v in vecinos && v != x :: SinPrimera(vecinos[v], x)
  }

  /** Removing the last element of a sequence where it occurs only there
      gives back the rest. */
  lemma {:induction false} SinPrimeraAlFinal(s: seq<int>, x: int)
    requires x !in s
    ensures SinPrimera(s + [x], x) == s
  {
    var t := s + [x];
    assert forall j :: 0 <= j < |s| ==> t[j] != x;
    assert Indice(t, x) == |s|;
    assert t[..|s|] == s;
  }

  /** The lists after the loop of `elimina`, without the list of `x`, are
      `Eliminado`. */
  lemma {:induction false} EliminadoSinX(vecinos: map<int, seq<int>>, m: map<int, seq<int>>, x: int)
    requires SinX(vecinos, m, x)
    ensures m - {x} == Eliminado(vecinos, x)
  {
    var e := Eliminado(vecinos, x);
    assert forall v :: v in m - {x} <==> v in e;
    forall v | v in e
      ensures (m - {x})[v] == e[v]
    {
      assert e[v] == SinPrimera(vecinos[v], x);
    }
  }

  /** `elimina` undoes `agrega`: the vertex list and the neighbour lists
      come back as they were. */
  lemma {:induction false} AgregaEliminaInversa(vertices: seq<int>, vecinos: map<int, seq<int>>, aristas: int, x: int)
    requires GraficaValida(vertices, vecinos, aristas) && x !in vertices
    ensures SinPrimera(vertices + [x], x) == vertices
    ensures Eliminado(vecinos[x := []], x) == vecinos
  {
    SinPrimeraAlFinal(vertices, x);
    forall v | v in vecinos
      ensures SinPrimera(vecinos[v], x) == vecinos[v]
    {
      assert x !in vecinos[v];
    }
  }

  /** `desconecta` undoes `conecta`. */
  lemma {:induction false} ConectaDesconectaInversa(vecinos: map<int, seq<int>>, a: int, b: int)
    requires a != b && a in vecinos && b in vecinos && b !in vecinos[a] && a !in vecinos[b]
    ensures var m := vecinos[a := vecinos[a] + [b]][b := vecinos[b] + [a]];
            m[a := SinPrimera(m[a], b)][b := SinPrimera(m[b], a)] == vecinos
  {
    var m := vecinos[a := vecinos[a] + [b]][b := vecinos[b] + [a]];
    assert m[a] == vecinos[a] + [b] && m[b] == vecinos[b] + [a];
    SinPrimeraAlFinal(vecinos[a], b);
    SinPrimeraAlFinal(vecinos[b], a);
    assert m[a := vecinos[a]][b := vecinos[b]] == vecinos;
  }


  /** A traversal from `v`: it starts at `v`, visits no vertex twice and
      visits exactly the vertices reachable from `v`. */
  ghost predicate Recorre(vecinos: map<int, seq<int>>, v: int, orden: seq<int>)
  {
    && |orden| > 0 && orden[0] == v
    && Distintos(orden)
    && forall w :: w in orden <==> Alcanzable(vecinos, v, w)
  }

  /** The position of the first vertex of `s` in the neighbour list `ady`,
      or `|s|` when there is none. */
  function PrimerAdyacente(s: seq<int>, ady: seq<int>): (r: nat)
    ensures r <= |s|
    ensures r < |s| ==> s[r] in ady
    ensures forall i :: 0 <= i < r ==> s[i] !in ady
  {
    if s == [] then 0
    else if s[0] in ady then 0
    else 1 + PrimerAdyacente(s[1..], ady)
  }

  /** A position that holds a neighbour, with none before it, is the first. */
  lemma {:induction false} PrimerAdyacenteEs(s: seq<int>, ady: seq<int>, k: int)
    requires 0 <= k < |s| && s[k] in ady
    requires forall i :: 0 <= i < k ==> s[i] !in ady
    ensures PrimerAdyacente(s, ady) == k
  {
  }

  /** Appending to a sequence that already holds a neighbour keeps the
      first one. */
  lemma {:induction false} PrimerAdyacenteExtiende(s: seq<int>, t: seq<int>, ady: seq<int>)
    requires PrimerAdyacente(s, ady) < |s|
    ensures PrimerAdyacente(s + t, ady) == PrimerAdyacente(s, ady)
  {
    var k := PrimerAdyacente(s, ady);
    assert (s + t)[k] == s[k];
    forall i | 0 <= i < k
      ensures (s + t)[i] !in ady
    {
      assert (s + t)[i] == s[i];
    }
    PrimerAdyacenteEs(s + t, ady, k);
  }

  /** The order of a breadth-first walk, up to the vertices before
      position `k`: every vertex after the first comes after one of its
      neighbours, the first of them lies before `k`, and the vertices come
      in the order of their first neighbours. This is what a queue gives:
      a vertex is put in by the first of its neighbours to be taken out,
      and vertices leave in the order they were put in. */
  ghost predicate Anchura(vecinos: map<int, seq<int>>, s: seq<int>, k: int)
  {
    && (forall j :: 0 < j < |s| ==>
          (s[j] in vecinos && PrimerAdyacente(s, vecinos[s[j]]) < j && PrimerAdyacente(s, vecinos[s[j]]) < k))
    && (forall i, j :: 0 < i < j < |s| && s[i] in vecinos && s[j] in vecinos ==>
          PrimerAdyacente(s, vecinos[s[i]]) <= PrimerAdyacente(s, vecinos[s[j]]))
  }

  /** Breadth-first order of a whole walk. */
  ghost predicate OrdenAnchura(vecinos: map<int, seq<int>>, orden: seq<int>)
  {
    Anchura(vecinos, orden, |orden|)
  }

  /** In breadth-first order the neighbours of the start come right after
      it, before any other vertex. */
  lemma {:induction false} VecinosDelInicioPrimero(vecinos: map<int, seq<int>>, orden: seq<int>, i: int, j: int)
    requires Simetrica(vecinos) && OrdenAnchura(vecinos, orden)
    requires 0 < i < j < |orden| && orden[0] in vecinos && orden[j] in vecinos[orden[0]]
    ensures orden[i] in vecinos[orden[0]]
  {
    var s, a, b := orden[0], orden[i], orden[j];
    assert b in vecinos && s in vecinos[b];
    PrimerAdyacenteEs(orden, vecinos[b], 0);
    assert a in vecinos && PrimerAdyacente(orden, vecinos[a]) == 0;
    assert s in vecinos[a];
  }

  /** Putting in the queue a neighbour `n` of the vertex `u` being
      visited, when no vertex visited before `u` is a neighbour of `n`,
      keeps the breadth-first order of everything put in so far. */
  lemma {:induction false} AnchuraMete(vecinos: map<int, seq<int>>, hechos: seq<int>, u: int, p: seq<int>, n: int)
    requires Anchura(vecinos, hechos + [u] + p, |hechos| + 1)
    requires n in vecinos && u in vecinos[n]
    requires forall x :: x in hechos ==> x !in vecinos[n]
    ensures Anchura(vecinos, hechos + [u] + (p + [n]), |hechos| + 1)
  {
    PrimeroEnVisitado(hechos, u, p, n, vecinos[n]);
    assert hechos + [u] + (p + [n]) == (hechos + [u] + p) + [n];
    AnchuraAgrega(vecinos, hechos + [u] + p, |hechos|, n);
  }

  /** Appending `n`, whose first neighbour is at `k`, to a breadth-first
      order whose first neighbours all lie at `k` or before. */
  lemma {:induction false} AnchuraAgrega(vecinos: map<int, seq<int>>, s: seq<int>, k: nat, n: int)
    requires Anchura(vecinos, s, k + 1) && k < |s|
    requires n in vecinos && PrimerAdyacente(s + [n], vecinos[n]) == k
    ensures Anchura(vecinos, s + [n], k + 1)
  {
    var s2 := s + [n];
    forall j | 0 < j < |s2|
      ensures s2[j] in vecinos && PrimerAdyacente(s2, vecinos[s2[j]]) < j
      ensures PrimerAdyacente(s2, vecinos[s2[j]]) < k + 1
    {
      if j < |s| {
        assert s2[j] == s[j];
        PrimerAdyacenteExtiende(s, [n], vecinos[s[j]]);
      }
    }
    forall i, j | 0 < i < j < |s2| && s2[i] in vecinos && s2[j] in vecinos
      ensures PrimerAdyacente(s2, vecinos[s2[i]]) <= PrimerAdyacente(s2, vecinos[s2[j]])
    {
      assert s2[i] == s[i];
      PrimerAdyacenteExtiende(s, [n], vecinos[s[i]]);
      if j < |s| {
        assert s2[j] == s[j];
        PrimerAdyacenteExtiende(s, [n], vecinos[s[j]]);
      }
    }
  }

  /** The first neighbour of `n` in `hechos + [u] + p + [n]` is `u` when
      none of `hechos` is one. */
  lemma {:induction false} PrimeroEnVisitado(hechos: seq<int>, u: int, p: seq<int>, n: int, ady: seq<int>)
    requires u in ady && forall x :: x in hechos ==> x !in ady
    ensures PrimerAdyacente(hechos + [u] + (p + [n]), ady) == |hechos|
  {
    var s2 := hechos + [u] + (p + [n]);
    var k := |hechos|;
    assert s2[k] == u;
    forall i | 0 <= i < k
      ensures s2[i] !in ady
    {
      assert s2[i] == hechos[i];
    }
    PrimerAdyacenteEs(s2, ady, k);
  }

  /** Taking the front `u` of the queue: the vertices put in so far stay
      in the same order, and one more of them has been visited. */
  lemma {:induction false} AnchuraSaca(vecinos: map<int, seq<int>>, orden: seq<int>, u: int, resto: seq<int>)
    requires Anchura(vecinos, orden + ([u] + resto), |orden|)
    ensures Anchura(vecinos, orden + [u] + resto, |orden| + 1)
  {
    assert orden + ([u] + resto) == orden + [u] + resto;
  }

  /* ---------- The graph ---------- */

  /** A graph: the vertex list in insertion order, the neighbour list and
      the colour of each vertex, and the number of edges. */
  class Grafica {
    var vertices: seq<int>
    var vecinos: map<int, seq<int>>
    var color: map<int, Color>
    var aristas: int

    /** The graph invariant, and a colour for every vertex. */
    ghost predicate Valid()
      reads this
    {
      GraficaValida(vertices, vecinos, aristas) && (forall v :: v in color <==> v in vertices)
    }

    /** An empty graph. */
    constructor()
      ensures Valid() && vertices == [] && vecinos == map[] && color == map[] && aristas == 0
    {
      vertices, vecinos, color, aristas := [], map[], map[], 0;
    }

    /** `buscaVertice`: the position of the vertex holding `elemento`, or -1
        when there is none. */
    method BuscaVertice(elemento: int) returns (i: int)
      ensures -1 <= i < |vertices|
      ensures i == -1 <==> elemento !in vertices
      ensures 0 <= i ==> vertices[i] == elemento && elemento !in vertices[..i]
    {
      i := 0;
      while i < |vertices|
        invariant 0 <= i <= |vertices|
        invariant elemento !in vertices[..i]
      {
        if vertices[i] == elemento {
          return;
        }
        assert vertices[..i + 1] == vertices[..i] + [vertices[i]];
        i := i + 1;
      }
      assert vertices[..i] == vertices;
      i := -1;
    }

    /** Whether some vertex holds `elemento`; a null argument is in none. */
    method Contiene(elemento: Option<int>) returns (r: bool)
      ensures r <==> elemento.Some? && elemento.valor in vertices
    {
      if elemento.None? {
        return false;
      }
      var i := BuscaVertice(elemento.valor);
      r := i != -1;
    }

    /** Whether `a` and `b` are adjacent; both must be vertices. Adjacency
        is checked in both lists, and either list alone decides it. */
    method SonVecinos(a: int, b: int) returns (r: Resultado<bool>)
      requires Valid()
      ensures r.Falla? <==> a !in vertices || b !in vertices
      ensures r.Falla? ==> r.excepcion == SinElemento
      ensures r.Exito? ==> (r.valor <==> b in vecinos[a]) && (r.valor <==> a in vecinos[b])
      ensures r.Exito? && r.valor ==> a != b
    {
      var ca := Contiene(Some(a));
      var cb := Contiene(Some(b));
      if !ca || !cb {
        return Falla(SinElemento);
      }
      r := Exito(b in vecinos[a] && a in vecinos[b]);
    }

    /** Adds a vertex without neighbours; `None` (null) and an element
        already present are rejected. */
    method Agrega(elemento: Option<int>) returns (s: Salida)
      requires Valid()
      modifies this
      ensures Valid()
      ensures elemento.None? || elemento.valor in old(vertices) ==>
                && s == Lanza(ArgumentoIlegal)
                && vertices == old(vertices) && vecinos == old(vecinos)
                && color == old(color) && aristas == old(aristas)
      ensures elemento.Some? && elemento.valor !in old(vertices) ==>
                && s == Normal
                && vertices == old(vertices) + [elemento.valor]
                && vecinos == old(vecinos)[elemento.valor := []]
                && color == old(color)[elemento.valor := Ninguno]
                && aristas == old(aristas)
    {
      if elemento.None? {
        return Lanza(ArgumentoIlegal);
      }
      var c := Contiene(elemento);
      if c {
        return Lanza(ArgumentoIlegal);
      }
      var x := elemento.valor;
      AgregaValida(vertices, vecinos, aristas, x);
      vertices := vertices + [x];
      vecinos := vecinos[x := []];
      color := color[x := Ninguno];
      s := Normal;
    }

    /** Connects two different vertices that are not yet adjacent: each is
        appended to the list of the other and the edge is counted. */
    method Conecta(a: int, b: int) returns (s: Salida)
      requires Valid()
      modifies this
      ensures Valid() && vertices == old(vertices) && color == old(color)
      ensures a !in vertices || b !in vertices ==>
                s == Lanza(SinElemento) && vecinos == old(vecinos) && aristas == old(aristas)
      ensures a in vertices && b in vertices && (a == b || b in old(vecinos)[a]) ==>
                s == Lanza(ArgumentoIlegal) && vecinos == old(vecinos) && aristas == old(aristas)
      ensures a in vertices && b in vertices && a != b && b !in old(vecinos)[a] ==>
                && s == Normal
                && vecinos == old(vecinos)[a := old(vecinos)[a] + [b]][b := old(vecinos)[b] + [a]]
                && aristas == old(aristas) + 1
    {
      var ca := Contiene(Some(a));
      var cb := Contiene(Some(b));
      if !ca || !cb {
        return Lanza(SinElemento);
      }
      if a == b {
        return Lanza(ArgumentoIlegal);
      }
      var sv := SonVecinos(a, b);
      if sv.valor {
        return Lanza(ArgumentoIlegal);
      }
      ConectaValida(vertices, vecinos, aristas, a, b);
      vecinos := vecinos[a := vecinos[a] + [b]][b := vecinos[b] + [a]];
      aristas := aristas + 1;
      s := Normal;
    }

    /** Disconnects two adjacent vertices: each leaves the list of the other
        and the edge count drops. */
    method Desconecta(a: int, b: int) returns (s: Salida)
      requires Valid()
      modifies this
      ensures Valid() && vertices == old(vertices) && color == old(color)
      ensures a !in vertices || b !in vertices ==>
                s == Lanza(SinElemento) && vecinos == old(vecinos) && aristas == old(aristas)
      ensures a in vertices && b in vertices && b !in old(vecinos)[a] ==>
                s == Lanza(ArgumentoIlegal) && vecinos == old(vecinos) && aristas == old(aristas)
      ensures a in vertices && b in vertices && b in old(vecinos)[a] ==>
                && s == Normal
                && vecinos == old(vecinos)[a := SinPrimera(old(vecinos)[a], b)][b := SinPrimera(old(vecinos)[b], a)]
                && aristas == old(aristas) - 1
    {
      var ca := Contiene(Some(a));
      var cb := Contiene(Some(b));
      if !ca || !cb {
        return Lanza(SinElemento);
      }
      var sv := SonVecinos(a, b);
      if !sv.valor {
        return Lanza(ArgumentoIlegal);
      }
      DesconectaValida(vertices, vecinos, aristas, a, b);
      vecinos := vecinos[a := SinPrimera(vecinos[a], b)][b := SinPrimera(vecinos[b], a)];
      aristas := aristas - 1;
      s := Normal;
    }

    /** The inner loop of `elimina` for vertex `v`: it goes over the list of
        `v` as it was when the loop started and, on meeting `x`, removes it
        from the list and lowers the edge count. */
    method QuitaVecino(v: int, x: int)
      requires v in vecinos && Distintos(vecinos[v])
      modifies this
      ensures vertices == old(vertices) && color == old(color)
      ensures vecinos == old(vecinos)[v := SinPrimera(old(vecinos)[v], x)]
      ensures aristas == old(aristas) - (if x in old(vecinos)[v] then 1 else 0)
    {
      var ts := vecinos[v];
      for j := 0 to |ts|
        invariant vertices == old(vertices) && color == old(color)
        invariant vecinos == old(vecinos)[v := if x in ts[..j] then SinPrimera(ts, x) else ts]
        invariant aristas == old(aristas) - (if x in ts[..j] then 1 else 0)
      {
        assert ts[..j + 1] == ts[..j] + [ts[j]];
        if ts[j] == x {
          FueraDeDistintos(ts, j);
          vecinos := vecinos[v := SinPrimera(vecinos[v], x)];
          aristas := aristas - 1;
        }
      }
      assert ts[..|ts|] == ts;
    }

    /** The outer loop of `elimina`: `x` leaves the list of every vertex,
        one edge less for each list that held it. */
    method QuitaDeTodas(x: int)
      requires Valid()
      modifies this
      ensures vertices == old(vertices) && color == old(color)
      ensures SinX(old(vecinos), vecinos, x)
      ensures aristas == old(aristas) - Cuenta(vertices, old(vecinos), x)
    {
      for i := 0 to |vertices|
        invariant vertices == old(vertices) && color == old(color)
        invariant forall w :: w in vecinos <==> w in old(vecinos)
        invariant forall w :: w in vecinos ==> vecinos[w] == if w in vertices[..i] then SinPrimera(old(vecinos)[w], x) else old(vecinos)[w]
        invariant aristas == old(aristas) - Cuenta(vertices[..i], old(vecinos), x)
      {
        var v := vertices[i];
        FueraDeDistintos(vertices, i);
        assert vertices[..i + 1] == vertices[..i] + [v];
        QuitaVecino(v, x);
      }
      assert vertices[..|vertices|] == vertices;
    }

    /** Removes a vertex: `x` leaves every neighbour list (one edge less for
        each list that held it), then the vertex leaves the graph. */
    method Elimina(x: int) returns (s: Salida)
      requires Valid()
      modifies this
      ensures Valid()
      ensures x !in old(vertices) ==>
                && s == Lanza(SinElemento)
                && vertices == old(vertices) && vecinos == old(vecinos)
                && color == old(color) && aristas == old(aristas)
      ensures x in old(vertices) ==>
                && s == Normal
                && vertices == SinPrimera(old(vertices), x)
                && vecinos == Eliminado(old(vecinos), x)
                && color == old(color) - {x}
                && aristas == old(aristas) - Grado(old(vecinos), x)
    {
      var c := Contiene(Some(x));
      if !c {
        return Lanza(SinElemento);
      }
      ghost var m0, a0 := vecinos, aristas;
      QuitaDeTodas(x);
      CuentaEsGrado(vertices, m0, x);
      EliminaValida(vertices, m0, a0, x, vecinos);
      SinPrimeraDistintos(vertices, x);
      var nv, nm, nc := SinPrimera(vertices, x), vecinos - {x}, color - {x};
      EliminadoSinX(m0, vecinos, x);
      vertices, vecinos, color := nv, nm, nc;
      s := Normal;
    }

    /* ---------- Colouring traversals ---------- */

    /** Paints every vertex with `c`. */
    method Pinta(c: Color)
      requires Valid()
      modifies this
      ensures Valid() && vertices == old(vertices) && vecinos == old(vecinos) && aristas == old(aristas)
      ensures forall v :: v in color ==> color[v] == c
    {
      for i := 0 to |vertices|
        invariant Valid() && vertices == old(vertices) && vecinos == old(vecinos) && aristas == old(aristas)
        invariant forall v :: v in vertices[..i] ==> color[v] == c
      {
        assert vertices[..i + 1] == vertices[..i] + [vertices[i]];
        color := color[vertices[i] := c];
      }
      assert vertices[..|vertices|] == vertices;
    }

    /** The vertices still painted red. */
    ghost function Rojos(): set<int>
      reads this
    {
      set v | v in color && color[v] == Rojo
    }

    /** Every neighbour of a vertex of `s` is painted black. */
    ghost predicate Cubiertos(s: seq<int>)
      reads this
    {
      forall u, n :: u in s && u in vecinos && n in vecinos[u] ==> n in color && color[n] == Negro
    }

    /** The state of the traversal loop started at `inicio`, with `orden`
        the vertices taken out of the structure so far and `pendientes` the
        ones still in it. Only red and black are used; a black vertex has
        been put in the structure; what was put in is reachable from
        `inicio` and black, except `inicio` itself when it is not marked at
        the start (`marca` false, as in `esConexa`), in which case it turns
        black only through a neighbour. With the start marked, no vertex is
        put in the structure twice. */
    ghost predicate Explorando(inicio: int, marca: bool, orden: seq<int>, pendientes: seq<int>)
      reads this
    {
      && Valid() && inicio in vertices
      && (forall v :: v in color ==> color[v] == Rojo || color[v] == Negro)
      && (forall w :: w in orden ==> w in vertices && Alcanzable(vecinos, inicio, w) && (color[w] == Negro || w == inicio))
      && (forall w :: w in pendientes ==> w in vertices && Alcanzable(vecinos, inicio, w) && (color[w] == Negro || w == inicio))
      && (forall w :: w in color && color[w] == Negro ==> w in orden || w in pendientes)
      && (orden == [] ==> pendientes == [inicio])
      && (orden != [] ==> orden[0] == inicio)
      && (!marca && color[inicio] == Negro ==> |vecinos[inicio]| > 0)
      && (marca ==> color[inicio] == Negro && Distintos(orden) && Distintos(pendientes))
      && (marca ==> forall w :: w in orden ==> w !in pendientes)
    }

    /** Taking `u` out of either end of the structure keeps the loop state. */
    lemma {:induction false} SacaExplorando(inicio: int, marca: bool, orden: seq<int>, pendientes: seq<int>, u: int, resto: seq<int>)
      requires Explorando(inicio, marca, orden, pendientes)
      requires pendientes == [u] + resto || pendientes == resto + [u]
      ensures Explorando(inicio, marca, orden + [u], resto)
    {
      assert u in pendientes;
      assert forall w :: w in resto ==> w in pendientes;
      if marca {
        DistintosExtremos(pendientes);
        assert pendientes[1..] == resto || pendientes[..|pendientes| - 1] == resto;
        DistintosAgrega(orden, u);
      }
    }

    /** Puts the red neighbour `n` of a visited vertex `u` in the structure
        and paints it black. */
    method Mete(n: int, u: int, inicio: int, marca: bool, ghost orden: seq<int>, pendientes: seq<int>) returns (p: seq<int>)
      requires Explorando(inicio, marca, orden, pendientes)
      requires u in orden && n in vecinos[u] && n in color && color[n] == Rojo
      modifies this
      ensures Explorando(inicio, marca, orden, p)
      ensures p == pendientes + [n] && color == old(color)[n := Negro]
      ensures vertices == old(vertices) && vecinos == old(vecinos) && aristas == old(aristas)
      ensures |Rojos()| == old(|Rojos()|) - 1
    {
      ghost var r0 := Rojos();
      AlcanzableExtiende(vecinos, inicio, u, n);
      assert u in vecinos[n];
      if marca {
        DistintosAgrega(pendientes, n);
      }
      p := pendientes + [n];
      color := color[n := Negro];
      assert Rojos() == r0 - {n} && n in r0;
    }

    /** The inner loop of `recorrido` for the vertex `u` just taken out: each
        red neighbour is put in the structure and painted black. */
    method VisitaVecinos(u: int, inicio: int, marca: bool, ghost hechos: seq<int>, pendientes: seq<int>) returns (p: seq<int>)
      requires Explorando(inicio, marca, hechos + [u], pendientes) && Cubiertos(hechos)
      modifies this
      ensures Explorando(inicio, marca, hechos + [u], p) && Cubiertos(hechos + [u])
      ensures vertices == old(vertices) && vecinos == old(vecinos) && aristas == old(aristas)
      ensures 2 * |Rojos()| + |p| <= old(2 * |Rojos()|) + |pendientes|
      ensures Anchura(vecinos, hechos + [u] + pendientes, |hechos| + 1) ==>
                Anchura(vecinos, hechos + [u] + p, |hechos| + 1)
    {
      p := pendientes;
      var ns := vecinos[u];
      ghost var anchura := Anchura(vecinos, hechos + [u] + pendientes, |hechos| + 1);
      for j := 0 to |ns|
        invariant Explorando(inicio, marca, hechos + [u], p) && Cubiertos(hechos)
        invariant forall k :: 0 <= k < j ==> ns[k] in color && color[ns[k]] == Negro
        invariant vertices == old(vertices) && vecinos == old(vecinos) && aristas == old(aristas)
        invariant 2 * |Rojos()| + |p| <= old(2 * |Rojos()|) + |pendientes|
        invariant anchura ==> Anchura(vecinos, hechos + [u] + p, |hechos| + 1)
      {
        p := VisitaVecino(ns, j, u, inicio, marca, hechos, p, anchura);
      }
      CubiertosAgrega(hechos, u);
    }

    /** One turn of the inner loop of `recorrido`: the `j`-th neighbour of
        `u`, when red, is put in the structure and painted black. */
    method VisitaVecino(ns: seq<int>, j: int, u: int, inicio: int, marca: bool, ghost hechos: seq<int>,
                        pendientes: seq<int>, ghost anchura: bool) returns (p: seq<int>)
      requires Explorando(inicio, marca, hechos + [u], pendientes) && Cubiertos(hechos)
      requires u in vecinos && ns == vecinos[u] && 0 <= j < |ns|
      requires forall k :: 0 <= k < j ==> ns[k] in color && color[ns[k]] == Negro
      requires anchura ==> Anchura(vecinos, hechos + [u] + pendientes, |hechos| + 1)
      modifies this
      ensures Explorando(inicio, marca, hechos + [u], p) && Cubiertos(hechos)
      ensures forall k :: 0 <= k <= j ==> ns[k] in color && color[ns[k]] == Negro
      ensures 2 * |Rojos()| + |p| <= old(2 * |Rojos()|) + |pendientes|
      ensures vertices == old(vertices) && vecinos == old(vecinos) && aristas == old(aristas)
      ensures anchura ==> Anchura(vecinos, hechos + [u] + p, |hechos| + 1)
    {
      var n := ns[j];
      VecinoRojo(hechos, u, n);
      p := pendientes;
      if color[n] == Rojo {
        if anchura {
          AnchuraMete(vecinos, hechos, u, p, n);
        }
        p := Mete(n, u, inicio, marca, hechos + [u], p);
      }
    }

    /** A neighbour `n` of `u` is a vertex with a colour that lists `u`;
        while it is red, no vertex of a covered sequence is its neighbour. */
    lemma {:induction false} VecinoRojo(hechos: seq<int>, u: int, n: int)
      requires Valid() && Cubiertos(hechos) && u in vecinos && n in vecinos[u]
      ensures n in vecinos && n in color && u in vecinos[n]
      ensures color[n] == Rojo ==> forall x :: x in hechos ==> x !in vecinos[n]
    {
    }

    /** A vertex whose neighbours are all black can join a covered
        sequence. */
    lemma {:induction false} CubiertosAgrega(s: seq<int>, u: int)
      requires Cubiertos(s) && u in vecinos
      requires forall n :: n in vecinos[u] ==> n in color && color[n] == Negro
      ensures Cubiertos(s + [u])
    {
    }

    /** When the structure is empty, the vertices taken out are exactly the
        ones reachable from `inicio`, and so are the black ones, except
        `inicio` itself when it was not marked and has no neighbour. */
    lemma {:induction false} ExploracionTerminada(inicio: int, marca: bool, orden: seq<int>)
      requires Explorando(inicio, marca, orden, []) && Cubiertos(orden)
      ensures |orden| > 0 && orden[0] == inicio
      ensures forall w :: w in orden <==> Alcanzable(vecinos, inicio, w)
      ensures forall w :: w in vertices ==>
                (color[w] == Negro <==> Alcanzable(vecinos, inicio, w) && (marca || w != inicio || |vecinos[inicio]| > 0))
    {
      assert inicio in orden;
      assert Cerrada(vecinos, orden);
      forall w | Alcanzable(vecinos, inicio, w)
        ensures w in orden
      {
        AlcanzableEnCerrada(vecinos, orden, inicio, w);
      }
      if !marca && |vecinos[inicio]| > 0 {
        var s := vecinos[inicio][0];
        assert s in vecinos[inicio] && s in vecinos;
        AlcanzableSiMismo(vecinos, inicio);
        AlcanzableExtiende(vecinos, inicio, inicio, s);
        AlcanzableEnCerrada(vecinos, orden, inicio, s);
        assert inicio in vecinos[s];
      }
    }

    /** One turn of the loop of `Explora`: `u` is taken out of the
        structure, at the front for a queue and at the top for a stack,
        and its red neighbours are put in. */
    method PasoExplora(inicio: int, porCola: bool, marca: bool, ghost orden: seq<int>, pendientes: seq<int>)
        returns (u: int, p: seq<int>)
      requires Explorando(inicio, marca, orden, pendientes) && Cubiertos(orden) && pendientes != []
      requires porCola ==> Anchura(vecinos, orden + pendientes, |orden|)
      modifies this
      ensures Explorando(inicio, marca, orden + [u], p) && Cubiertos(orden + [u])
      ensures vertices == old(vertices) && vecinos == old(vecinos) && aristas == old(aristas)
      ensures 2 * |Rojos()| + |p| < old(2 * |Rojos()|) + |pendientes|
      ensures porCola ==> Anchura(vecinos, orden + [u] + p, |orden| + 1)
    {
      var resto;
      if porCola {
        u, resto := pendientes[0], pendientes[1..];
        assert pendientes == [u] + resto;
        AnchuraSaca(vecinos, orden, u, resto);
      } else {
        u, resto := pendientes[|pendientes| - 1], pendientes[..|pendientes| - 1];
        assert pendientes == resto + [u];
      }
      SacaExplorando(inicio, marca, orden, pendientes, u, resto);
      p := VisitaVecinos(u, inicio, marca, orden, resto);
    }

    /** The loop shared by `recorrido` and `esConexa`: starting from
        `inicio` with every vertex red, take a vertex out of the structure
        (the front of a queue when `porCola`, the top of a stack otherwise),
        visit it, and put in its red neighbours painted black. With `marca`
        the start is painted black before the loop, as `recorrido` does;
        without it the start stays red, as in `esConexa`. The result is the
        order in which vertices are taken out. */
    method Explora(inicio: int, porCola: bool, marca: bool) returns (orden: seq<int>)
      requires Valid() && inicio in vertices
      requires forall v :: v in color ==> color[v] == Rojo
      modifies this
      ensures Valid() && vertices == old(vertices) && vecinos == old(vecinos) && aristas == old(aristas)
      ensures |orden| > 0 && orden[0] == inicio
      ensures forall w :: w in orden <==> Alcanzable(vecinos, inicio, w)
      ensures marca ==> Distintos(orden)
      ensures forall w :: w in vertices ==> color[w] == Rojo || color[w] == Negro
      ensures forall w :: w in vertices ==>
                (color[w] == Negro <==> Alcanzable(vecinos, inicio, w) && (marca || w != inicio || |vecinos[inicio]| > 0))
      ensures porCola ==> OrdenAnchura(vecinos, orden)
    {
      if marca {
        color := color[inicio := Negro];
      }
      var pendientes := [inicio];
      orden := [];
      AlcanzableSiMismo(vecinos, inicio);
      while pendientes != []
        invariant Explorando(inicio, marca, orden, pendientes) && Cubiertos(orden)
        invariant vertices == old(vertices) && vecinos == old(vecinos) && aristas == old(aristas)
        invariant porCola ==> Anchura(vecinos, orden + pendientes, |orden|)
        decreases 2 * |Rojos()| + |pendientes|
      {
        var u;
        u, pendientes := PasoExplora(inicio, porCola, marca, orden, pendientes);
        orden := orden + [u];
      }
      assert orden + [] == orden;
      ExploracionTerminada(inicio, marca, orden);
    }

    /** `recorrido`: paints every vertex red, explores from `v` with the
        start marked, and paints every vertex back to no colour. */
    method Recorrido(v: int, porCola: bool) returns (orden: seq<int>)
      requires Valid() && v in vertices
      modifies this
      ensures Valid() && vertices == old(vertices) && vecinos == old(vecinos) && aristas == old(aristas)
      ensures Recorre(vecinos, v, orden)
      ensures porCola ==> OrdenAnchura(vecinos, orden)
      ensures forall w :: w in color ==> color[w] == Ninguno
    {
      Pinta(Rojo);
      orden := Explora(v, porCola, true);
      Pinta(Ninguno);
    }

    /** Breadth-first traversal from `elemento`, which must be a vertex:
        the vertices reachable from it, each once, in breadth-first
        order. */
    method Bfs(elemento: int) returns (r: Resultado<seq<int>>)
      requires Valid()
      modifies this
      ensures Valid() && vertices == old(vertices) && vecinos == old(vecinos) && aristas == old(aristas)
      ensures elemento !in vertices ==> r == Falla(SinElemento) && color == old(color)
      ensures elemento in vertices ==>
                r.Exito? && Recorre(vecinos, elemento, r.valor) && OrdenAnchura(vecinos, r.valor)
                && forall w :: w in color ==> color[w] == Ninguno
    {
      var c := Contiene(Some(elemento));
      if !c {
        return Falla(SinElemento);
      }
      var orden := Recorrido(elemento, true);
      r := Exito(orden);
    }

    /** Depth-first traversal from `elemento`, which must be a vertex. */
    method Dfs(elemento: int) returns (r: Resultado<seq<int>>)
      requires Valid()
      modifies this
      ensures Valid() && vertices == old(vertices) && vecinos == old(vecinos) && aristas == old(aristas)
      ensures elemento !in vertices ==> r == Falla(SinElemento) && color == old(color)
      ensures elemento in vertices ==>
                r.Exito? && Recorre(vecinos, elemento, r.valor) && forall w :: w in color ==> color[w] == Ninguno
    {
      var c := Contiene(Some(elemento));
      if !c {
        return Falla(SinElemento);
      }
      var orden := Recorrido(elemento, false);
      r := Exito(orden);
    }

    /** The final loop of `esConexa`: whether some vertex is still red. */
    method HayRojo() returns (b: bool)
      requires Valid()
      ensures b <==> exists w :: w in vertices && color[w] == Rojo
    {
      for i := 0 to |vertices|
        invariant Valid()
        invariant forall w :: w in vertices[..i] ==> w in color && color[w] != Rojo
      {
        assert vertices[..i + 1] == vertices[..i] + [vertices[i]];
        var v := vertices[i];
        assert v in vertices;
        assert v in color;
        if color[v] == Rojo {
          return true;
        }
      }
      assert vertices[..|vertices|] == vertices;
      b := false;
    }

    /** `esConexa` as written: an empty graph has no first vertex; otherwise
        the first vertex is painted red like the others before the queue
        loop, so it turns black only if it has a neighbour. The answer is
        "connected and at least two vertices": a single vertex is reported
        as not connected. */
    method EsConexa() returns (r: Resultado<bool>)
      requires Valid()
      modifies this
      ensures Valid() && vertices == old(vertices) && vecinos == old(vecinos) && aristas == old(aristas)
      ensures vertices == [] ==> r == Falla(SinElemento) && color == old(color)
      ensures vertices != [] ==> r == Exito(Conexa(vertices, vecinos) && |vertices| >= 2)
      ensures vertices != [] ==> forall w :: w in vertices ==>
                (color[w] == Rojo || color[w] == Negro)
                && (color[w] == Negro <==> Alcanzable(vecinos, vertices[0], w)
                                           && (w != vertices[0] || |vecinos[w]| > 0))
    {
      if vertices == [] {
        return Falla(SinElemento);
      }
      var n := vertices[0];
      Pinta(Rojo);
      var orden := Explora(n, true, false);
      ConexaComoEscrita(vertices, vecinos, aristas, n);
      var rojo := HayRojo();
      r := Exito(!rojo);
    }

    /** `esConexa` with the first vertex marked before the loop, as
        `recorrido` marks its start: the answer is connectivity. */
    method EsConexaCorregida() returns (r: Resultado<bool>)
      requires Valid()
      modifies this
      ensures Valid() && vertices == old(vertices) && vecinos == old(vecinos) && aristas == old(aristas)
      ensures vertices == [] ==> r == Falla(SinElemento) && color == old(color)
      ensures vertices != [] ==> r == Exito(Conexa(vertices, vecinos))
      ensures vertices != [] ==> forall w :: w in vertices ==>
                (color[w] == Rojo || color[w] == Negro)
                && (color[w] == Negro <==> Alcanzable(vecinos, vertices[0], w))
    {
      if vertices == [] {
        return Falla(SinElemento);
      }
      var n := vertices[0];
      Pinta(Rojo);
      var orden := Explora(n, true, true);
      ConexaDesde(vertices, vecinos, n);
      var rojo := HayRojo();
      r := Exito(!rojo);
    }

    /** Empties the graph. */
    method Limpia()
      modifies this
      ensures Valid() && vertices == [] && vecinos == map[] && color == map[] && aristas == 0
    {
      vertices, vecinos, color, aristas := [], map[], map[], 0;
    }
  }
}
