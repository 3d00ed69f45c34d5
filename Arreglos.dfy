/** In-place sorting and binary search on arrays (`Arreglos`). The comparator
    is an integer key as in `Ordenes`: `compare(x, y)` is negative, zero or
    positive exactly as `clave(x) - clave(y)` is. */
module Arreglos {
  import opened Comun
  import opened Ordenes

  /** `t` is `s` with slots `i` and `m` exchanged. */
  ghost predicate Intercambiado<T>(s: seq<T>, t: seq<T>, i: int, m: int)
    requires 0 <= i < |s| && 0 <= m < |s|
  {
    t == s[i := s[m]][m := s[i]]
  }

  /** `s` and `t` agree outside the slots `[lo, hi]`. */
  ghost predicate FueraIgual<T>(s: seq<T>, t: seq<T>, lo: int, hi: int)
    requires 0 <= lo <= hi + 1 <= |s|
  {
    |t| == |s| && t[..lo] == s[..lo] && t[hi + 1..] == s[hi + 1..]
  }

  /** Exchanging two slots inside `[lo, hi]` keeps everything outside it. */
  lemma {:induction false} IntercambioEnRango<T>(s: seq<T>, t: seq<T>, i: int, m: int, lo: int, hi: int)
    requires 0 <= lo <= i <= hi < |s| && lo <= m <= hi
    requires Intercambiado(s, t, i, m)
    ensures FueraIgual(s, t, lo, hi)
  {
  }

  /** The multiset of a sequence split in three. */
  lemma {:induction false} Partes<T>(s: seq<T>, lo: int, hi: int)
    requires 0 <= lo <= hi + 1 <= |s|
    ensures multiset(s) == multiset(s[..lo]) + multiset(s[lo..hi + 1]) + multiset(s[hi + 1..])
  {
    assert s == s[..lo] + s[lo..hi + 1] + s[hi + 1..];
  }

  /** Equal sums with equal outer parts have equal middle parts. */
  lemma {:induction false} CancelaMedio<T>(p: multiset<T>, m: multiset<T>, f: multiset<T>, m2: multiset<T>)
    requires p + m + f == p + m2 + f
    ensures m == m2
  {
    forall z
      ensures m[z] == m2[z]
    {
      assert (p + m + f)[z] == (p + m2 + f)[z];
    }
  }

  /** A permutation of the whole sequence that keeps everything outside
      `[lo, hi]` permutes the range `[lo, hi]`. */
  lemma {:induction false} RangoPermutado<T>(s: seq<T>, t: seq<T>, lo: int, hi: int)
    requires 0 <= lo <= hi + 1 <= |s| && FueraIgual(s, t, lo, hi)
    requires multiset(s) == multiset(t)
    ensures multiset(t[lo..hi + 1]) == multiset(s[lo..hi + 1])
  {
    Partes(s, lo, hi);
    Partes(t, lo, hi);
    CancelaMedio(multiset(s[..lo]), multiset(s[lo..hi + 1]), multiset(s[hi + 1..]), multiset(t[lo..hi + 1]));
  }

  /** Exchanges two slots of the array; nothing else changes. */
  method Intercambia<T>(a: array<T>, i: int, m: int)
    requires 0 <= i < a.Length && 0 <= m < a.Length
    modifies a
    ensures Intercambiado(old(a[..]), a[..], i, m)
    ensures multiset(a[..]) == multiset(old(a[..]))
  {
    var nuevo := a[i];
    a[i] := a[m];
    a[m] := nuevo;
    assert a[..] == old(a[..])[i := old(a[m])][m := old(a[i])];
  }

  /** Every element of `s` has a key at most `v` (`menores`) or above `v`. */
  ghost predicate Acotada<T>(s: seq<T>, clave: T -> int, v: int, menores: bool)
  {
    forall k :: 0 <= k < |s| ==> (if menores then clave(s[k]) <= v else clave(s[k]) > v)
  }

  /** A bound on all elements survives a permutation. */
  lemma {:induction false} AcotadaPermutacion<T>(s: seq<T>, t: seq<T>, clave: T -> int, v: int, menores: bool)
    requires multiset(s) == multiset(t) && Acotada(s, clave, v, menores)
    ensures Acotada(t, clave, v, menores)
  {
    forall k | 0 <= k < |t|
      ensures if menores then clave(t[k]) <= v else clave(t[k]) > v
    {
      assert t[k] in multiset(t);
      assert t[k] in s;
    }
  }

  /** Two sorted blocks around a pivot, the left one below it and the right
      one above it, make a sorted block. */
  lemma {:induction false} OrdenadaAlrededor<T>(l: seq<T>, x: T, r: seq<T>, clave: T -> int)
    requires OrdenadaPor(l, clave) && OrdenadaPor(r, clave)
    requires Acotada(l, clave, clave(x), true) && Acotada(r, clave, clave(x), false)
    ensures OrdenadaPor(l + [x] + r, clave)
  {
    var s := l + [x] + r;
    forall i, j | 0 <= i < j < |s|
      ensures clave(s[i]) <= clave(s[j])
    {
      if j < |l| {
        assert clave(l[i]) <= clave(l[j]);
      } else if i > |l| {
        assert clave(r[i - |l| - 1]) <= clave(r[j - |l| - 1]);
      } else if i < |l| {
        assert clave(l[i]) <= clave(x);
        if j > |l| {
          assert clave(r[j - |l| - 1]) > clave(x);
        }
      } else {
        assert clave(r[j - |l| - 1]) > clave(x);
      }
    }
  }

  /** Slots `[lo, p)` have keys at most the key at `p`, slots `(p, hi]`
      larger keys. */
  ghost predicate Particionada<T>(s: seq<T>, clave: T -> int, lo: int, p: int, hi: int)
    requires 0 <= lo <= p <= hi < |s|
  {
    (forall k :: lo <= k < p ==> clave(s[k]) <= clave(s[p]))
    && (forall k :: p < k <= hi ==> clave(s[k]) > clave(s[p]))
  }

  lemma {:induction false} ParticionadaAcotada<T>(s: seq<T>, clave: T -> int, lo: int, p: int, hi: int)
    requires 0 <= lo <= p <= hi < |s| && Particionada(s, clave, lo, p, hi)
    ensures Acotada(s[lo..p], clave, clave(s[p]), true)
    ensures Acotada(s[p + 1..hi + 1], clave, clave(s[p]), false)
  {
    var l, r := s[lo..p], s[p + 1..hi + 1];
    forall k | 0 <= k < |l|
      ensures clave(l[k]) <= clave(s[p])
    {
      assert l[k] == s[lo + k];
    }
    forall k | 0 <= k < |r|
      ensures clave(r[k]) > clave(s[p])
    {
      assert r[k] == s[p + 1 + k];
    }
  }

  /** The state of the partition loop on `[lo, hi]` with the pivot `s[lo]`:
      slots `(lo, i)` are at most the pivot, slots `(j, hi]` above it, and
      `s` is a permutation of the initial `s0` that only moved `[lo, hi]`. */
  ghost predicate EstadoParticion<T>(s: seq<T>, s0: seq<T>, clave: T -> int, lo: int, hi: int, i: int, j: int)
  {
    0 <= lo < hi < |s0| && lo + 1 <= i <= hi && j <= hi && i <= j + 1
    && FueraIgual(s0, s, lo, hi) && multiset(s) == multiset(s0) && s[lo] == s0[lo]
    && (forall k :: lo + 1 <= k < i ==> clave(s[k]) <= clave(s[lo]))
    && (forall k :: j < k <= hi ==> clave(s[k]) > clave(s[lo]))
    && (i == j + 1 ==> clave(s[i]) > clave(s[lo]))
  }

  /** The loop step that exchanges a large `s[i]` with a small `s[j]`. */
  lemma {:induction false} PasoIntercambio<T>(s: seq<T>, t: seq<T>, s0: seq<T>, clave: T -> int, lo: int, hi: int, i: int, j: int)
    requires EstadoParticion(s, s0, clave, lo, hi, i, j) && i < j
    requires clave(s[i]) > clave(s[lo]) && clave(s[j]) <= clave(s[lo])
    requires Intercambiado(s, t, i, j) && multiset(t) == multiset(s)
    ensures EstadoParticion(t, s0, clave, lo, hi, i + 1, j - 1)
  {
    IntercambioEnRango(s, t, i, j, lo, hi);
  }

  /** The loop steps that only move `i` up or `j` down. */
  lemma {:induction false} PasoAvanza<T>(s: seq<T>, s0: seq<T>, clave: T -> int, lo: int, hi: int, i: int, j: int)
    requires EstadoParticion(s, s0, clave, lo, hi, i, j) && i < j
    ensures clave(s[i]) <= clave(s[lo]) ==> EstadoParticion(s, s0, clave, lo, hi, i + 1, j)
    ensures clave(s[j]) > clave(s[lo]) ==> EstadoParticion(s, s0, clave, lo, hi, i, j - 1)
  {
  }

  /** After the loop, the pivot goes to the last slot that is not above it. */
  lemma {:induction false} PasoFinal<T>(s: seq<T>, t: seq<T>, s0: seq<T>, clave: T -> int, lo: int, hi: int, i: int, j: int, p: int)
    requires EstadoParticion(s, s0, clave, lo, hi, i, j) && i >= j
    requires p == if clave(s[i]) > clave(s[lo]) then i - 1 else i
    requires lo <= p && Intercambiado(s, t, lo, p) && multiset(t) == multiset(s)
    ensures FueraIgual(s0, t, lo, hi) && multiset(t) == multiset(s0)
    ensures Particionada(t, clave, lo, p, hi)
  {
    IntercambioEnRango(s, t, lo, p, lo, hi);
  }

  /** One step of the partition loop: it exchanges a misplaced pair or
      moves past a slot that is already on its side. */
  method PasoParticion<T>(a: array<T>, clave: T -> int, lo: int, hi: int, i: int, j: int, ghost s0: seq<T>)
      returns (i2: int, j2: int)
    requires EstadoParticion(a[..], s0, clave, lo, hi, i, j) && i < j
    modifies a
    ensures EstadoParticion(a[..], s0, clave, lo, hi, i2, j2)
    ensures a[lo] == old(a[lo]) && j2 - i2 < j - i
  {
    ghost var s := a[..];
    if clave(a[i]) > clave(a[lo]) && clave(a[j]) <= clave(a[lo]) {
      Intercambia(a, i, j);
      PasoIntercambio(s, a[..], s0, clave, lo, hi, i, j);
      i2, j2 := i + 1, j - 1;
    } else if clave(a[j]) <= clave(a[lo]) {
      PasoAvanza(s, s0, clave, lo, hi, i, j);
      i2, j2 := i + 1, j;
    } else {
      PasoAvanza(s, s0, clave, lo, hi, i, j);
      i2, j2 := i, j - 1;
    }
  }

  /** The partition step of quicksort on `[lo, hi]` with the pivot at `lo`:
      it returns the final position `p` of the pivot, everything left of it
      has a key at most the pivot's and everything right of it a larger key. */
  method Particion<T>(a: array<T>, clave: T -> int, lo: int, hi: int) returns (p: int)
    requires 0 <= lo < hi < a.Length
    modifies a
    ensures lo <= p <= hi
    ensures FueraIgual(old(a[..]), a[..], lo, hi)
    ensures multiset(a[..]) == multiset(old(a[..]))
    ensures Particionada(a[..], clave, lo, p, hi)
  {
    var pivote := a[lo];
    var i, j := lo + 1, hi;
    while i < j
      invariant EstadoParticion(a[..], old(a[..]), clave, lo, hi, i, j) && a[lo] == pivote
      decreases j - i
    {
      i, j := PasoParticion(a, clave, lo, hi, i, j, old(a[..]));
    }
    ghost var s := a[..];
    ghost var i0 := i;
    if clave(a[i]) > clave(pivote) {
      i := i - 1;
    }
    Intercambia(a, lo, i);
    PasoFinal(s, a[..], old(a[..]), clave, lo, hi, i0, j, i);
    p := i;
  }

  /** The two recursive calls of quicksort on the blocks around the pivot
      at `p` (from `s1` to `s2` and from `s2` to `s3`) sort the range. */
  lemma {:induction false} Combina<T>(s1: seq<T>, s2: seq<T>, s3: seq<T>, clave: T -> int, lo: int, p: int, hi: int)
    requires 0 <= lo <= p <= hi < |s1|
    requires Particionada(s1, clave, lo, p, hi)
    requires FueraIgual(s1, s2, lo, p - 1) && multiset(s2) == multiset(s1)
    requires FueraIgual(s2, s3, p + 1, hi) && multiset(s3) == multiset(s2)
    requires OrdenadaPor(s2[lo..p], clave) && OrdenadaPor(s3[p + 1..hi + 1], clave)
    ensures FueraIgual(s1, s3, lo, hi) && OrdenadaPor(s3[lo..hi + 1], clave)
  {
    ParticionadaAcotada(s1, clave, lo, p, hi);
    RangoPermutado(s1, s2, lo, p - 1);
    RangoPermutado(s2, s3, p + 1, hi);
    // the left block is sorted by the first call and untouched by the second
    assert s3[lo..p] == s2[lo..p] by {
      assert s3[..p + 1] == s2[..p + 1];
    }
    assert s2[p..] == s1[p..];
    assert s3[p] == s1[p];
    assert s2[p + 1..hi + 1] == s1[p + 1..hi + 1];
    AcotadaPermutacion(s1[lo..p], s3[lo..p], clave, clave(s1[p]), true);
    AcotadaPermutacion(s1[p + 1..hi + 1], s3[p + 1..hi + 1], clave, clave(s1[p]), false);
    assert s3[lo..hi + 1] == s3[lo..p] + [s3[p]] + s3[p + 1..hi + 1];
    OrdenadaAlrededor(s3[lo..p], s3[p], s3[p + 1..hi + 1], clave);
    assert s3[..lo] == s1[..lo] by {
      assert s3[..p + 1] == s2[..p + 1];
      assert s3[..lo] == s3[..p + 1][..lo];
      assert s2[..lo] == s2[..p + 1][..lo];
    }
    assert s3[hi + 1..] == s1[hi + 1..] by {
      assert s2[hi + 1..] == s2[p..][hi + 1 - p..];
      assert s1[hi + 1..] == s1[p..][hi + 1 - p..];
    }
  }

  /** Quicksort of the slots `[lo, hi]` (both inclusive); a range with
      `hi <= lo` is left untouched. */
  method QuickSortRango<T>(a: array<T>, clave: T -> int, lo: int, hi: int)
    requires 0 <= lo <= hi + 1 <= a.Length
    modifies a
    ensures FueraIgual(old(a[..]), a[..], lo, hi)
    ensures multiset(a[..]) == multiset(old(a[..]))
    ensures OrdenadaPor(a[lo..hi + 1], clave)
    ensures hi <= lo ==> a[..] == old(a[..])
    decreases hi - lo
  {
    if hi <= lo {
      return;
    }
    var p := Particion(a, clave, lo, hi);
    ghost var s1 := a[..];
    QuickSortRango(a, clave, lo, p - 1);
    ghost var s2 := a[..];
    QuickSortRango(a, clave, p + 1, hi);
    ghost var s3 := a[..];
    Combina(s1, s2, s3, clave, lo, p, hi);
  }

  /** Quicksort of the whole array, ordering by the comparator. */
  method QuickSort<T>(a: array<T>, clave: T -> int)
    modifies a
    ensures multiset(a[..]) == multiset(old(a[..]))
    ensures OrdenadaPor(a[..], clave)
  {
    QuickSortRango(a, clave, 0, a.Length - 1);
    assert a[0..a.Length] == a[..];
  }

  /** Selection sort state: the prefix `s[..i]` is sorted and no key in it
      exceeds a key of the suffix. */
  ghost predicate Seleccionada<T>(s: seq<T>, clave: T -> int, i: int)
    requires 0 <= i <= |s|
  {
    OrdenadaPor(s[..i], clave)
    && forall k, l :: 0 <= k < i <= l < |s| ==> clave(s[k]) <= clave(s[l])
  }

  /** Moving a minimum of the suffix to slot `i` extends the sorted prefix. */
  lemma {:induction false} PasoSeleccion<T>(s: seq<T>, t: seq<T>, clave: T -> int, i: int, m: int)
    requires 0 <= i <= m < |s| && Seleccionada(s, clave, i)
    requires forall k :: i <= k < |s| ==> clave(s[m]) <= clave(s[k])
    requires Intercambiado(s, t, i, m)
    ensures Seleccionada(t, clave, i + 1)
  {
    var u, v := s[..i], t[..i + 1];
    forall k, l | 0 <= k < l < i + 1
      ensures clave(v[k]) <= clave(v[l])
    {
      if l < i {
        assert u[k] == v[k] && u[l] == v[l];
      }
    }
  }

  /** Selection sort: slot `i` receives the first minimum of `[i, n)`. */
  method SelectionSort<T>(a: array<T>, clave: T -> int)
    modifies a
    ensures multiset(a[..]) == multiset(old(a[..]))
    ensures OrdenadaPor(a[..], clave)
  {
    for i := 0 to a.Length
      invariant multiset(a[..]) == multiset(old(a[..]))
      invariant Seleccionada(a[..], clave, i)
    {
      var m := i;
      for j := i + 1 to a.Length
        invariant i <= m < a.Length
        invariant forall k :: i <= k < j ==> clave(a[m]) <= clave(a[k])
      {
        if clave(a[j]) < clave(a[m]) {
          m := j;
        }
      }
      ghost var s := a[..];
      Intercambia(a, i, m);
      PasoSeleccion(s, a[..], clave, i, m);
    }
    assert a[..a.Length] == a[..];
  }

  /** Binary search of `e` in the slots `[a, b]`: it answers -1 or an index
      in the range whose element compares equal to `e`. */
  function BusquedaBinariaRango<T>(s: seq<T>, e: T, clave: T -> int, a: int, b: int): (r: int)
    requires 0 <= a && b < |s|
    ensures r == -1 || (a <= r <= b && clave(s[r]) == clave(e))
    ensures a > b ==> r == -1
    decreases b - a
  {
    if a > b then -1
    else
      var m := (a + b) / 2;
      if clave(e) == clave(s[m]) then m
      else if clave(e) < clave(s[m]) then BusquedaBinariaRango(s, e, clave, a, m - 1)
      else if clave(e) > clave(s[m]) then BusquedaBinariaRango(s, e, clave, m + 1, b)
      else -1
  }

  /** No slot of `[a, b]` compares equal to `e`. */
  ghost predicate SinClave<T>(s: seq<T>, e: T, clave: T -> int, a: int, b: int)
    requires 0 <= a && b < |s|
  {
    forall k :: a <= k <= b ==> clave(s[k]) != clave(e)
  }

  /** Splitting the range `[a, b]` at `m`. */
  lemma {:induction false} SinClaveParte<T>(s: seq<T>, e: T, clave: T -> int, a: int, m: int, b: int)
    requires 0 <= a <= m <= b + 1 && b < |s|
    ensures SinClave(s, e, clave, a, b) <==>
      SinClave(s, e, clave, a, m - 1) && SinClave(s, e, clave, m, b)
  {
  }

  /** On a sorted sequence nothing above a larger key matches. */
  lemma {:induction false} SinClaveArriba<T>(s: seq<T>, e: T, clave: T -> int, m: int, b: int)
    requires 0 <= m <= b < |s| && OrdenadaPor(s, clave) && clave(e) < clave(s[m])
    ensures SinClave(s, e, clave, m, b)
  {
    forall k | m <= k <= b
      ensures clave(s[k]) != clave(e)
    {
      assert clave(s[m]) <= clave(s[k]);
    }
  }

  /** On a sorted sequence nothing below a smaller key matches. */
  lemma {:induction false} SinClaveAbajo<T>(s: seq<T>, e: T, clave: T -> int, a: int, m: int)
    requires 0 <= a <= m < |s| && OrdenadaPor(s, clave) && clave(s[m]) < clave(e)
    ensures SinClave(s, e, clave, a, m)
  {
    forall k | a <= k <= m
      ensures clave(s[k]) != clave(e)
    {
      assert clave(s[k]) <= clave(s[m]);
    }
  }

  /** The search goes left of the middle slot `m`: it misses on `[a, b]`
      exactly when it misses on `[a, m - 1]`. */
  lemma {:induction false} BusquedaIzquierda<T>(s: seq<T>, e: T, clave: T -> int, a: int, m: int, b: int)
    requires 0 <= a <= m <= b < |s| && m == (a + b) / 2 && OrdenadaPor(s, clave)
    requires clave(e) < clave(s[m])
    requires BusquedaBinariaRango(s, e, clave, a, m - 1) == -1 <==> SinClave(s, e, clave, a, m - 1)
    ensures BusquedaBinariaRango(s, e, clave, a, b) == -1 <==> SinClave(s, e, clave, a, b)
  {
    SinClaveArriba(s, e, clave, m, b);
    SinClaveParte(s, e, clave, a, m, b);
  }

  /** The search goes right of the middle slot `m`. */
  lemma {:induction false} BusquedaDerecha<T>(s: seq<T>, e: T, clave: T -> int, a: int, m: int, b: int)
    requires 0 <= a <= m <= b < |s| && m == (a + b) / 2 && OrdenadaPor(s, clave)
    requires clave(e) > clave(s[m])
    requires BusquedaBinariaRango(s, e, clave, m + 1, b) == -1 <==> SinClave(s, e, clave, m + 1, b)
    ensures BusquedaBinariaRango(s, e, clave, a, b) == -1 <==> SinClave(s, e, clave, a, b)
  {
    SinClaveAbajo(s, e, clave, a, m);
    SinClaveParte(s, e, clave, a, m + 1, b);
  }

  /** On a sorted array the search misses only when no slot of the range
      compares equal to `e`. */
  lemma {:induction false} BusquedaBinariaCompleta<T>(s: seq<T>, e: T, clave: T -> int, a: int, b: int)
    requires 0 <= a && b < |s| && OrdenadaPor(s, clave)
    ensures BusquedaBinariaRango(s, e, clave, a, b) == -1 ==> SinClave(s, e, clave, a, b)
    ensures SinClave(s, e, clave, a, b) ==> BusquedaBinariaRango(s, e, clave, a, b) == -1
    decreases b - a
  {
    if a <= b {
      var m := (a + b) / 2;
      if clave(e) < clave(s[m]) {
        BusquedaBinariaCompleta(s, e, clave, a, m - 1);
        BusquedaIzquierda(s, e, clave, a, m, b);
      } else if clave(e) > clave(s[m]) {
        BusquedaBinariaCompleta(s, e, clave, m + 1, b);
        BusquedaDerecha(s, e, clave, a, m, b);
      } else {
        assert clave(s[m]) == clave(e);
      }
    }
  }

  /** `BusquedaBinariaCompleta` over a whole sequence, sorted or not. */
  lemma {:induction false} BusquedaBinariaOrdenada<T>(s: seq<T>, e: T, clave: T -> int)
    ensures OrdenadaPor(s, clave) ==>
      (BusquedaBinariaRango(s, e, clave, 0, |s| - 1) == -1 <==> SinClave(s, e, clave, 0, |s| - 1))
  {
    if OrdenadaPor(s, clave) {
      BusquedaBinariaCompleta(s, e, clave, 0, |s| - 1);
    }
  }

  /** Binary search over the whole array. */
  function BusquedaBinaria<T>(a: array<T>, e: T, clave: T -> int): (r: int)
    reads a
    ensures r == -1 || (0 <= r < a.Length && clave(a[r]) == clave(e))
    ensures OrdenadaPor(a[..], clave) ==>
              (r == -1 <==> forall k :: 0 <= k < a.Length ==> clave(a[k]) != clave(e))
  {
    BusquedaBinariaOrdenada(a[..], e, clave);
    BusquedaBinariaRango(a[..], e, clave, 0, a.Length - 1)
  }

  /** The natural order of `Comparable` elements (integers here) is the
      comparator whose key is the element itself. */
  lemma {:induction false} OrdenNatural(s: seq<int>)
    ensures OrdenadaPor(s, x => x) <==> Ordenada(s)
  {
  }

  method QuickSortComparable(a: array<int>)
    modifies a
    ensures multiset(a[..]) == multiset(old(a[..])) && Ordenada(a[..])
  {
    QuickSort(a, x => x);
    OrdenNatural(a[..]);
  }

  method SelectionSortComparable(a: array<int>)
    modifies a
    ensures multiset(a[..]) == multiset(old(a[..])) && Ordenada(a[..])
  {
    SelectionSort(a, x => x);
    OrdenNatural(a[..]);
  }

  function BusquedaBinariaComparable(a: array<int>, e: int): (r: int)
    reads a
    ensures r == -1 || (0 <= r < a.Length && a[r] == e)
    ensures Ordenada(a[..]) ==> (r == -1 <==> e !in a[..])
  {
    OrdenNatural(a[..]);
    BusquedaBinaria(a, e, x => x)
  }
}
