/** Shared vocabulary of the library model: optional values (Java's nullable
    references), the unchecked exceptions the library throws, and the
    result of an operation that either produces a value or throws. */
module Comun {

  /** A nullable reference: `None` plays the role of Java's `null`. */
  datatype Option<+T> = None | Some(valor: T)

  /** The exceptions thrown by the library's operations. */
  datatype Excepcion =
    | ArgumentoIlegal        // IllegalArgumentException
    | SinElemento            // NoSuchElementException
    | OperacionNoSoportada   // UnsupportedOperationException
    | EstadoIlegal           // IllegalStateException
    | IndiceInvalido         // ExcepcionIndiceInvalido
    | FueraDeRango           // ArrayIndexOutOfBoundsException

  /** The outcome of a call: it returns a value or throws an exception. */
  datatype Resultado<+T> = Exito(valor: T) | Falla(excepcion: Excepcion)

  /** The outcome of a `void` call: it returns normally or throws. */
  datatype Salida = Normal | Lanza(excepcion: Excepcion)

  /** The colours of graph and red-black tree vertices. */
  datatype Color = Rojo | Negro | Ninguno

  /** Non-decreasing order of a sequence of integers. */
  predicate Ordenada(s: seq<int>)
  {
    forall i, j :: 0 <= i < j < |s| ==> s[i] <= s[j]
  }
}
