/** `MonticuloArreglo`: a Dijkstra heap kept as an unordered array; the
    minimum is found by a linear scan and its slot is set to null. */
module MonticuloArreglo {
  import opened Comun
  import opened Indexables

  /** The number of occupied slots. */
  function Ocupados(s: seq<Indexable?>): (r: nat)
    ensures r <= |s|
    ensures r == 0 <==> forall i :: 0 <= i < |s| ==> s[i] == null
  {
    if s == [] then 0
    else Ocupados(s[..|s| - 1]) + (if s[|s| - 1] != null then 1 else 0)
  }

  /** Emptying an occupied slot leaves one element less. */
  lemma {:induction false} OcupadosAnula(s: seq<Indexable?>, k: int)
    requires 0 <= k < |s| && s[k] != null
    ensures Ocupados(s[k := null]) == Ocupados(s) - 1
    decreases |s|
  {
    var t := s[k := null];
    if k < |s| - 1 {
      assert t[..|t| - 1] == s[..|s| - 1][k := null];
      OcupadosAnula(s[..|s| - 1], k);
    } else {
      assert t[..|t| - 1] == s[..|s| - 1];
    }
  }

  /** The last occupied slot, or -1. */
  function UltimoOcupado(s: seq<Indexable?>): (r: int)
    ensures -1 <= r < |s|
    ensures r >= 0 ==> s[r] != null && forall i :: r < i < |s| ==> s[i] == null
    ensures r == -1 ==> forall i :: 0 <= i < |s| ==> s[i] == null
  {
    if s == [] then -1
    else if s[|s| - 1] != null then |s| - 1
    else UltimoOcupado(s[..|s| - 1])
  }

  class MonticuloArreglo {
    var elementos: int
    var arreglo: array<Indexable?>

    /** `elementos` counts the occupied slots, and every element knows its
        slot. */
    ghost predicate Valid()
      reads this, arreglo, arreglo[..]
    {
      elementos == Ocupados(arreglo[..]) && Indizados(arreglo[..])
    }

    /** Every element in `s` has its own slot as index. */
    static ghost predicate Indizados(s: seq<Indexable?>)
      reads s
    {
      forall i :: 0 <= i < |s| && s[i] != null ==> s[i].indice == i
    }

    /** The `n` elements of the iterable, each in the slot of its position,
        with that position as index. */
    constructor (iterable: seq<Indexable>, n: int)
      requires |iterable| == n
      requires forall i, j :: 0 <= i < j < n ==> iterable[i] != iterable[j]
      modifies set x | x in iterable
      ensures Valid() && fresh(arreglo)
      ensures arreglo[..] == iterable && elementos == n
      ensures forall i :: 0 <= i < n ==> iterable[i].indice == i
    {
      arreglo := new Indexable?[n](_ => null);
      new;
      var i := 0;
      while i < n
        invariant 0 <= i <= n && arreglo.Length == n && fresh(arreglo)
        invariant forall k :: 0 <= k < i ==> arreglo[k] == iterable[k] && iterable[k].indice == k
        invariant forall k :: i <= k < n ==> arreglo[k] == null
      {
        arreglo[i] := iterable[i];
        iterable[i].indice := i;
        i := i + 1;
      }
      elementos := n;
      assert arreglo[..] == iterable;
      assert Ocupados(arreglo[..]) == n by {
        OcupadosLlenos(arreglo[..]);
      }
    }

    /** A sequence without empty slots counts all its slots. */
    static lemma {:induction false} OcupadosLlenos(s: seq<Indexable?>)
      requires forall i :: 0 <= i < |s| ==> s[i] != null
      ensures Ocupados(s) == |s|
      decreases |s|
    {
      if s != [] {
        OcupadosLlenos(s[..|s| - 1]);
      }
    }

    /** `elimina()`: throws when the heap is empty; otherwise it takes out
        a minimal element (see `BuscaMinimo`), and one element less remains. */
    method Elimina() returns (r: Resultado<Indexable>)
      requires Valid()
      modifies this, arreglo, arreglo[..]
      ensures Valid() && arreglo == old(arreglo)
      ensures old(elementos) == 0 <==> r == Falla(EstadoIlegal)
      ensures old(elementos) == 0 ==> elementos == 0 && arreglo[..] == old(arreglo[..])
      ensures old(elementos) > 0 ==> r.Exito? && elementos == old(elementos) - 1
      ensures r.Exito? ==> r.valor in old(arreglo[..]) && r.valor !in arreglo[..] && r.valor.indice == -1
      ensures r.Exito? ==> forall x :: x in old(arreglo[..]) && x != null ==> r.valor.clave <= x.clave
      ensures r.Exito? ==> exists k :: (0 <= k < arreglo.Length && old(arreglo[k]) == r.valor
                                         && arreglo[..] == old(arreglo[..])[k := null])
    {
      if elementos == 0 {
        return Falla(EstadoIlegal);
      }
      ghost var s := arreglo[..];
      elementos := elementos - 1;
      var min, k := BuscaMinimo();
      OcupadosAnula(s, k);
      r := Exito(min);
    }

    /** `buscaMinimo()`: the element it takes out has the least key. On a tie
        it keeps the last occupied slot when that one holds the least key,
        and otherwise the first slot that does, because its first scan starts
        from the last element and its second scan only moves on a strictly
        smaller key. The slot is emptied and the element gets the index -1;
        nothing else changes. */
    method BuscaMinimo() returns (min: Indexable, ghost k: int)
      requires Indizados(arreglo[..]) && Ocupados(arreglo[..]) > 0
      modifies arreglo, arreglo[..]
      ensures 0 <= k < arreglo.Length && old(arreglo[k]) == min
      ensures arreglo[..] == old(arreglo[..])[k := null]
      ensures Indizados(arreglo[..]) && min.indice == -1
      ensures forall i :: 0 <= i < arreglo.Length && old(arreglo[i]) != null ==> min.clave <= old(arreglo[i]).clave
      ensures var u := UltimoOcupado(old(arreglo[..]));
              if old(arreglo[u]).clave == min.clave then k == u
              else forall i :: 0 <= i < k && old(arreglo[i]) != null ==> old(arreglo[i]).clave != min.clave
    {
      ghost var s := arreglo[..];
      var m: Indexable? := null;
      ghost var u := -1;
      for i := 0 to arreglo.Length
        invariant u == UltimoOcupado(s[..i]) && (m == null <==> u == -1)
        invariant m != null ==> m == s[u]
      {
        assert s[..i + 1][..i] == s[..i];
        if arreglo[i] != null {
          m := arreglo[i];
          u := i;
        }
      }
      assert s[..arreglo.Length] == s;
      assert m != null;
      var min': Indexable := m;
      var ind := min'.indice;
      for j := 0 to arreglo.Length
        invariant 0 <= ind < arreglo.Length && s[ind] == min' && min'.clave <= s[u].clave
        invariant forall i :: 0 <= i < j && s[i] != null ==> min'.clave <= s[i].clave
        invariant if min'.clave == s[u].clave then ind == u
                  else forall i :: 0 <= i < ind && s[i] != null ==> s[i].clave != min'.clave
        invariant min'.clave < s[u].clave ==> ind < j
      {
        var x := arreglo[j];
        if x != null {
          if min'.clave > x.clave {
            min' := x;
            ind := x.indice;
          }
        }
      }
      arreglo[ind].indice := -1;
      arreglo[ind] := null;
      min, k := min', ind;
    }

    /** `get(i)`: throws outside `[0, elementos)`; otherwise the slot's
        content (null when that slot was emptied). */
    function Get(i: int): (r: Resultado<Indexable?>)
      reads this, arreglo
      ensures (i < 0 || i >= elementos) <==> r == Falla(SinElemento)
      ensures r.Exito? ==> 0 <= i < arreglo.Length ==> r.valor == arreglo[i]
    {
      if i < 0 || i >= elementos then Falla(SinElemento)
      else if i < arreglo.Length then Exito(arreglo[i])
      else Falla(IndiceInvalido)
    }

    /** `esVacia()`. */
    function EsVacia(): (r: bool)
      reads this, arreglo, arreglo[..]
      requires Valid()
      ensures r <==> forall i :: 0 <= i < arreglo.Length ==> arreglo[i] == null
    {
      elementos == 0
    }
  }
}
