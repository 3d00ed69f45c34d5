/** The front end's reading of an input file: `Archivo.organiza` drops the
    comment lines and splits the remaining lines into space-separated tokens,
    accumulating them in its `arch` field. The file's lines arrive as a
    sequence of strings (reading the file is not part of this model). */
module Archivo {

  /** `a.startsWith("#")`. */
  predicate EsComentario(a: string)
  {
    |a| > 0 && a[0] == '#'
  }

  /** The lines that are not comments, in their order. */
  function SinComentarios(lineas: seq<string>): (r: seq<string>)
    ensures forall a :: a in r ==> a in lineas && !EsComentario(a)
    ensures forall a :: a in lineas && !EsComentario(a) ==> a in r
  {
    if lineas == [] then []
    else if EsComentario(lineas[0]) then SinComentarios(lineas[1..])
    else [lineas[0]] + SinComentarios(lineas[1..])
  }

  /** All the fields of `s` between single spaces, empty ones included: the
      split before Java drops the trailing empty strings. */
  function Campos(s: string): (r: seq<string>)
    ensures |r| >= 1
    ensures forall k :: 0 <= k < |r| ==> ' ' !in r[k]
  {
    if s == [] then [""]
    else if s[0] == ' ' then [""] + Campos(s[1..])
    else
      var c := Campos(s[1..]);
      [[s[0]] + c[0]] + c[1..]
  }

  /** Joins fields with single spaces: the inverse of `Campos`. */
  function Une(campos: seq<string>): string
    requires |campos| >= 1
  {
    if |campos| == 1 then campos[0] else campos[0] + " " + Une(campos[1..])
  }

  lemma {:induction false} UneCampos(s: string)
    ensures Une(Campos(s)) == s
  {
    if s == [] {
    } else if s[0] == ' ' {
      UneCampos(s[1..]);
      assert Campos(s)[1..] == Campos(s[1..]);
    } else {
      UneCampos(s[1..]);
      var c := Campos(s[1..]);
      if |c| == 1 {
      } else {
        assert Campos(s)[1..] == c[1..];
        assert Une(c) == c[0] + " " + Une(c[1..]);
      }
    }
  }

  lemma {:induction false} CamposUne(campos: seq<string>)
    requires |campos| >= 1
    requires forall k :: 0 <= k < |campos| ==> ' ' !in campos[k]
    ensures Campos(Une(campos)) == campos
  {
    if |campos| == 1 {
      CamposSinEspacio(campos[0]);
    } else {
      CamposUne(campos[1..]);
      CamposConcatena(campos[0], Une(campos[1..]));
      assert campos == [campos[0]] + campos[1..];
    }
  }

  lemma {:induction false} CamposSinEspacio(t: string)
    requires ' ' !in t
    ensures Campos(t) == [t]
  {
    if t != [] {
      CamposSinEspacio(t[1..]);
      assert [t[0]] + t[1..] == t;
    }
  }

  lemma {:induction false} CamposConcatena(t: string, u: string)
    requires ' ' !in t
    ensures Campos(t + " " + u) == [t] + Campos(u)
  {
    if t == [] {
      assert t + " " + u == [' '] + u;
      assert (t + " " + u)[1..] == u;
    } else {
      CamposConcatena(t[1..], u);
      assert (t + " " + u)[1..] == t[1..] + " " + u;
      assert [t[0]] + t[1..] == t;
    }
  }

  /** Drops the empty strings at the end of a sequence. */
  function SinVaciasFinales(campos: seq<string>): (r: seq<string>)
    ensures |r| <= |campos| && r == campos[..|r|]
    ensures forall k :: |r| <= k < |campos| ==> campos[k] == ""
    ensures r == [] || r[|r| - 1] != ""
  {
    if campos == [] || campos[|campos| - 1] != "" then campos
    else SinVaciasFinales(campos[..|campos| - 1])
  }

  /** Java's `s.split(" ")`: a string without a space is its own only token
      (so `""` gives `[""]`); otherwise the fields between spaces, without
      the trailing empty ones. */
  function Divide(s: string): (r: seq<string>)
    ensures forall k :: 0 <= k < |r| ==> ' ' !in r[k]
    ensures ' ' !in s ==> r == [s]
    ensures ' ' in s ==> |r| <= |Campos(s)| && r == Campos(s)[..|r|]
    ensures ' ' in s ==> forall k :: |r| <= k < |Campos(s)| ==> Campos(s)[k] == ""
    ensures ' ' in s ==> r == [] || r[|r| - 1] != ""
  {
    if ' ' !in s then [s] else SinVaciasFinales(Campos(s))
  }

  /** `separa`: the tokens of every line, line by line. */
  function Tokens(lista: seq<string>): seq<string>
  {
    if lista == [] then [] else Divide(lista[0]) + Tokens(lista[1..])
  }

  lemma {:induction false} TokensConcatena(a: seq<string>, b: seq<string>)
    ensures Tokens(a + b) == Tokens(a) + Tokens(b)
  {
    if a == [] {
      assert a + b == b;
    } else {
      TokensConcatena(a[1..], b);
      assert (a + b)[0] == a[0];
      assert (a + b)[1..] == a[1..] + b;
      Asocia(Divide(a[0]), Tokens(a[1..]), Tokens(b));
    }
  }

  /** Concatenation is associative. */
  lemma {:induction false} Asocia<T>(x: seq<T>, y: seq<T>, z: seq<T>)
    ensures x + (y + z) == (x + y) + z
  {
  }

  /** The tokens of the first `j + 1` lines: those of the first `j`, then
      the tokens of line `j`. */
  lemma {:induction false} TokensHasta(lista: seq<string>, j: nat)
    requires j < |lista|
    ensures Tokens(lista[..j + 1]) == Tokens(lista[..j]) + Divide(lista[j])
  {
    TokensConcatena(lista[..j], [lista[j]]);
    assert lista[..j + 1] == lista[..j] + [lista[j]];
    assert Tokens([lista[j]]) == Divide(lista[j]) + [];
  }

  /** A prefix one longer: appending the next item. */
  lemma {:induction false} PrefijoMasUno<T>(p: seq<T>, s: seq<T>, i: nat)
    requires i < |s|
    ensures (p + s[..i]) + [s[i]] == p + s[..i + 1]
  {
    assert s[..i + 1] == s[..i] + [s[i]];
  }

  /** A token has no space, so splitting tokens again gives them back: the
      reuse of `arch` by a second call to `organiza` leaves the tokens of the
      first call as they were. */
  lemma {:induction false} TokensIdempotente(lista: seq<string>)
    ensures Tokens(Tokens(lista)) == Tokens(lista)
  {
    if lista != [] {
      TokensIdempotente(lista[1..]);
      TokensDeTokens(Divide(lista[0]));
      TokensConcatena(Divide(lista[0]), Tokens(lista[1..]));
    }
  }

  lemma {:induction false} TokensDeTokens(ts: seq<string>)
    requires forall k :: 0 <= k < |ts| ==> ' ' !in ts[k]
    ensures Tokens(ts) == ts
  {
    if ts != [] {
      TokensDeTokens(ts[1..]);
      assert ts == [ts[0]] + ts[1..];
    }
  }

  class Archivo {
    /** The accumulated tokens; the same list is reused by every call. */
    var arch: seq<string>

    constructor ()
      ensures arch == []
    {
      arch := [];
    }

    /** `organiza(archivo)`: appends the non-comment lines to `arch`, then
        replaces `arch` by its tokens and returns it. */
    method Organiza(archivo: seq<string>) returns (r: seq<string>)
      modifies this
      ensures arch == Tokens(old(arch) + SinComentarios(archivo))
      ensures r == arch
    {
      var i := 0;
      while i < |archivo|
        invariant 0 <= i <= |archivo|
        invariant arch == old(arch) + SinComentarios(archivo[..i])
      {
        SinComentariosConcatena(archivo[..i], archivo[i]);
        assert archivo[..i + 1] == archivo[..i] + [archivo[i]];
        if !EsComentario(archivo[i]) {
          arch := arch + [archivo[i]];
        }
        i := i + 1;
      }
      assert archivo[..i] == archivo;
      var separadas := Separa(arch);
      arch := separadas;
      r := arch;
    }

    /** After a first call, a second call gives the earlier tokens followed by
        the tokens of the new lines. */
    static lemma OrganizaAcumula(previas: seq<string>, archivo: seq<string>)
      ensures Tokens(Tokens(previas) + SinComentarios(archivo))
           == Tokens(previas) + Tokens(SinComentarios(archivo))
    {
      TokensConcatena(Tokens(previas), SinComentarios(archivo));
      TokensIdempotente(previas);
    }
  }

  lemma {:induction false} SinComentariosConcatena(lineas: seq<string>, a: string)
    ensures SinComentarios(lineas + [a])
         == SinComentarios(lineas) + (if EsComentario(a) then [] else [a])
  {
    if lineas == [] {
      assert lineas + [a] == [a];
    } else {
      SinComentariosConcatena(lineas[1..], a);
      assert (lineas + [a])[0] == lineas[0];
      assert (lineas + [a])[1..] == lineas[1..] + [a];
      if !EsComentario(lineas[0]) {
        Asocia([lineas[0]], SinComentarios(lineas[1..]), if EsComentario(a) then [] else [a]);
      }
    }
  }

  /** `separa(lista)`: a new list with the tokens of each line, in order. */
  method Separa(lista: seq<string>) returns (nueva: seq<string>)
    ensures nueva == Tokens(lista)
  {
    nueva := [];
    var j := 0;
    while j < |lista|
      invariant 0 <= j <= |lista|
      invariant nueva == Tokens(lista[..j])
    {
      var nodos := Divide(lista[j]);
      var i := 0;
      while i < |nodos|
        invariant 0 <= i <= |nodos|
        invariant nueva == Tokens(lista[..j]) + nodos[..i]
      {
        PrefijoMasUno(Tokens(lista[..j]), nodos, i);
        nueva := nueva + [nodos[i]];
        i := i + 1;
      }
      TokensHasta(lista, j);
      assert nodos[..i] == nodos;
      j := j + 1;
    }
    assert lista[..j] == lista;
  }
}
