/** The front end's choice of structure to draw: the `Estructura` constants,
    the `Graficador` that holds the chosen one, and `Identificador.define`,
    which maps a class name to its constant. */
module Identificador {
  import opened Comun

  /** The structures the front end can draw (`Estructura` enum). */
  datatype Estructura =
    | NINGUNO
    | LISTA
    | PILA
    | COLA
    | ARBOLCOMPLETO
    | ARBOLORDENADO
    | ARBOLROJINEGRO
    | ARBOLAVL
    | GRAFICA
    | MONTICULOMINIMO

  /** The library class name that selects each structure; `NINGUNO` has none. */
  function NombreDeClase(e: Estructura): Option<string>
  {
    match e
    case NINGUNO => None
    case LISTA => Some("Lista")
    case PILA => Some("Pila")
    case COLA => Some("Cola")
    case ARBOLCOMPLETO => Some("ArbolBinarioCompleto")
    case ARBOLORDENADO => Some("ArbolBinarioOrdenado")
    case ARBOLROJINEGRO => Some("ArbolRojinegro")
    case ARBOLAVL => Some("ArbolAVL")
    case GRAFICA => Some("Grafica")
    case MONTICULOMINIMO => Some("MonticuloMinimo")
  }

  /** The `switch` of `define`: the constant whose class name is `tipo`, and
      `NINGUNO` for every other string. */
  function Tipo(tipo: string): (r: Estructura)
    ensures r != NINGUNO ==> NombreDeClase(r) == Some(tipo)
    ensures r == NINGUNO <==> forall e: Estructura :: NombreDeClase(e) != Some(tipo)
  {
    match tipo
    case "Lista" => LISTA
    case "Pila" => PILA
    case "Cola" => COLA
    case "ArbolBinarioCompleto" => ARBOLCOMPLETO
    case "ArbolBinarioOrdenado" => ARBOLORDENADO
    case "ArbolRojinegro" => ARBOLROJINEGRO
    case "ArbolAVL" => ARBOLAVL
    case "Grafica" => GRAFICA
    case "MonticuloMinimo" => MONTICULOMINIMO
    case _ => NINGUNO
  }

  /** Every structure is selected by its own class name: `Tipo` inverts
      `NombreDeClase`. */
  lemma {:induction false} TipoDeNombre(e: Estructura)
    requires e != NINGUNO
    ensures NombreDeClase(e).Some? && Tipo(NombreDeClase(e).valor) == e
  {
  }

  /** Holds the structure chosen for drawing; only the `est` field is part of
      this model (the SVG buffers are not). */
  class Graficador {
    var est: Estructura

    constructor ()
      ensures est == NINGUNO
    {
      est := NINGUNO;
    }

    /** `estructura(nombre)`: records the structure to draw. */
    method DefineEstructura(nombre: Estructura)
      modifies this
      ensures est == nombre
    {
      est := nombre;
    }
  }

  class Identificador {
    const graph: Graficador

    constructor ()
      ensures fresh(graph) && graph.est == NINGUNO
    {
      graph := new Graficador();
    }

    /** `define(tipo)`: sets the held graficador's structure from the class
        name and returns that same graficador. */
    method Define(tipo: string) returns (g: Graficador)
      modifies graph
      ensures g == graph
      ensures graph.est == Tipo(tipo)
    {
      g := graph;
      match tipo
      case "Lista" => graph.DefineEstructura(LISTA);
      case "Pila" => graph.DefineEstructura(PILA);
      case "Cola" => graph.DefineEstructura(COLA);
      case "ArbolBinarioCompleto" => graph.DefineEstructura(ARBOLCOMPLETO);
      case "ArbolBinarioOrdenado" => graph.DefineEstructura(ARBOLORDENADO);
      case "ArbolRojinegro" => graph.DefineEstructura(ARBOLROJINEGRO);
      case "ArbolAVL" => graph.DefineEstructura(ARBOLAVL);
      case "Grafica" => graph.DefineEstructura(GRAFICA);
      case "MonticuloMinimo" => graph.DefineEstructura(MONTICULOMINIMO);
      case _ => graph.DefineEstructura(NINGUNO);
    }
  }
}
