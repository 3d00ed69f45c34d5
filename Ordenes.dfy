/** Orders given by a `Comparator`. A comparator is modelled by an integer key
    `clave`: `compare(a, b) <= 0` exactly when `clave(a) <= clave(b)`, which
    makes it a total preorder in which distinct elements may compare equal.
    This module holds the specification of the stable merge sort of `Lista`
    and the sortedness notion shared with `Arreglos`. */
module Ordenes {

  /** Non-decreasing by key. */
  predicate OrdenadaPor<T>(s: seq<T>, clave: T -> int)
  {
    forall i, j :: 0 <= i < j < |s| ==> clave(s[i]) <= clave(s[j])
  }

  /** The elements whose key is `k`, in their order. */
  function ConClave<T>(s: seq<T>, clave: T -> int, k: int): (r: seq<T>)
    ensures |r| <= |s|
    ensures forall x :: x in r ==> clave(x) == k
  {
    if s == [] then []
    else if clave(s[0]) == k then [s[0]] + ConClave(s[1..], clave, k)
    else ConClave(s[1..], clave, k)
  }

  lemma {:induction false} ConClaveConcatena<T>(a: seq<T>, b: seq<T>, clave: T -> int, k: int)
    ensures ConClave(a + b, clave, k) == ConClave(a, clave, k) + ConClave(b, clave, k)
  {
    if a == [] {
      assert a + b == b;
    } else {
      ConClaveConcatena(a[1..], b, clave, k);
      assert (a + b)[1..] == a[1..] + b;
    }
  }

  /** In a sorted sequence whose first key exceeds `k`, no element has key `k`. */
  lemma {:induction false} ConClaveMenor<T>(s: seq<T>, clave: T -> int, k: int)
    requires OrdenadaPor(s, clave)
    requires s != [] && k < clave(s[0])
    ensures ConClave(s, clave, k) == []
  {
    if |s| > 1 {
      ConClaveMenor(s[1..], clave, k);
    }
  }

  /** `mezcla`: merges two sequences, taking from the left one while its
      head does not compare greater than the right one's; then the rest. */
  function Mezcla<T>(a: seq<T>, b: seq<T>, clave: T -> int): (r: seq<T>)
    ensures |r| == |a| + |b|
    decreases |a| + |b|
  {
    if a == [] then b
    else if b == [] then a
    else if clave(a[0]) <= clave(b[0]) then [a[0]] + Mezcla(a[1..], b, clave)
    else [b[0]] + Mezcla(a, b[1..], clave)
  }

  /** One step of the merge: the head that goes first, then the merge of
      the rest. */
  lemma {:induction false} MezclaPaso<T>(a: seq<T>, b: seq<T>, clave: T -> int)
    requires a != [] || b != []
    ensures a != [] && (b == [] || clave(a[0]) <= clave(b[0])) ==>
              Mezcla(a, b, clave) == [a[0]] + Mezcla(a[1..], b, clave)
    ensures b != [] && (a == [] || clave(b[0]) < clave(a[0])) ==>
              Mezcla(a, b, clave) == [b[0]] + Mezcla(a, b[1..], clave)
  {
    if a != [] && b == [] {
      assert Mezcla(a[1..], b, clave) == a[1..];
    }
    if a == [] && b != [] {
      assert Mezcla(a, b[1..], clave) == b[1..];
    }
  }

  lemma {:induction false} MezclaPermuta<T>(a: seq<T>, b: seq<T>, clave: T -> int)
    ensures multiset(Mezcla(a, b, clave)) == multiset(a) + multiset(b)
    decreases |a| + |b|
  {
    if a == [] || b == [] {
    } else if clave(a[0]) <= clave(b[0]) {
      var resto := Mezcla(a[1..], b, clave);
      assert Mezcla(a, b, clave) == [a[0]] + resto;
      MezclaPermuta(a[1..], b, clave);
      assert a == [a[0]] + a[1..];
      assert multiset(Mezcla(a, b, clave)) == multiset([a[0]]) + multiset(resto);
    } else {
      var resto := Mezcla(a, b[1..], clave);
      assert Mezcla(a, b, clave) == [b[0]] + resto;
      MezclaPermuta(a, b[1..], clave);
      assert b == [b[0]] + b[1..];
      assert multiset(Mezcla(a, b, clave)) == multiset([b[0]]) + multiset(resto);
    }
  }

  /** The first element of a merge is the head of one of its inputs. */
  lemma {:induction false} MezclaCabeza<T>(a: seq<T>, b: seq<T>, clave: T -> int)
    requires a != [] || b != []
    ensures Mezcla(a, b, clave)[0] == (if a == [] then b[0] else if b == [] then a[0]
                                        else if clave(a[0]) <= clave(b[0]) then a[0] else b[0])
  {
  }

  lemma {:induction false} MezclaOrdenada<T>(a: seq<T>, b: seq<T>, clave: T -> int)
    requires OrdenadaPor(a, clave) && OrdenadaPor(b, clave)
    ensures OrdenadaPor(Mezcla(a, b, clave), clave)
    decreases |a| + |b|
  {
    if a == [] || b == [] {
    } else if clave(a[0]) <= clave(b[0]) {
      MezclaOrdenada(a[1..], b, clave);
      var r := Mezcla(a[1..], b, clave);
      if r != [] {
        MezclaCabeza(a[1..], b, clave);
      }
      OrdenadaConCabeza(a[0], r, clave);
    } else {
      MezclaOrdenada(a, b[1..], clave);
      var r := Mezcla(a, b[1..], clave);
      MezclaCabeza(a, b[1..], clave);
      OrdenadaConCabeza(b[0], r, clave);
    }
  }

  lemma {:induction false} OrdenadaConCabeza<T>(x: T, r: seq<T>, clave: T -> int)
    requires OrdenadaPor(r, clave)
    requires r != [] ==> clave(x) <= clave(r[0])
    ensures OrdenadaPor([x] + r, clave)
  {
  }

  /** The merge is stable: among elements of equal key, those of the left
      input come first and each input keeps its order. */
  lemma {:induction false} MezclaEstable<T>(a: seq<T>, b: seq<T>, clave: T -> int, k: int)
    requires OrdenadaPor(a, clave) && OrdenadaPor(b, clave)
    ensures ConClave(Mezcla(a, b, clave), clave, k) == ConClave(a, clave, k) + ConClave(b, clave, k)
    decreases |a| + |b|
  {
    if a == [] {
    } else if b == [] {
    } else if clave(a[0]) <= clave(b[0]) {
      MezclaEstable(a[1..], b, clave, k);
    } else {
      MezclaEstable(a, b[1..], clave, k);
      if clave(b[0]) == k {
        ConClaveMenor(a, clave, k);
      }
    }
  }

  /** `mergeSort`: the first `n - n/2` elements and the last `n/2` are
      sorted separately and merged. */
  function OrdenaMezcla<T>(s: seq<T>, clave: T -> int): (r: seq<T>)
    ensures |r| == |s|
    decreases |s|
  {
    if |s| <= 1 then s
    else
      var m := |s| - |s| / 2;
      Mezcla(OrdenaMezcla(s[..m], clave), OrdenaMezcla(s[m..], clave), clave)
  }

  /** Merge sort yields a sorted permutation of its input, and it is stable:
      the elements of each key appear in their original order. */
  lemma {:induction false} OrdenaMezclaCorrecta<T>(s: seq<T>, clave: T -> int)
    ensures OrdenadaPor(OrdenaMezcla(s, clave), clave)
    ensures multiset(OrdenaMezcla(s, clave)) == multiset(s)
    ensures forall k :: ConClave(OrdenaMezcla(s, clave), clave, k) == ConClave(s, clave, k)
    decreases |s|
  {
    if |s| > 1 {
      var m := |s| - |s| / 2;
      var a, b := OrdenaMezcla(s[..m], clave), OrdenaMezcla(s[m..], clave);
      OrdenaMezclaCorrecta(s[..m], clave);
      OrdenaMezclaCorrecta(s[m..], clave);
      MezclaOrdenada(a, b, clave);
      MezclaPermuta(a, b, clave);
      assert s == s[..m] + s[m..];
      forall k
        ensures ConClave(OrdenaMezcla(s, clave), clave, k) == ConClave(s, clave, k)
      {
        MezclaEstable(a, b, clave, k);
        ConClaveConcatena(s[..m], s[m..], clave, k);
      }
    }
  }
}
