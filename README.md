# Data structures of `mx.unam.ciencias.edd`, modelled in Dafny

This project models the core of a Java course library of in-memory
containers and its small text front end:

- **Binary trees.**
  - `ArbolBinario` is the shared vertex model: height, depth, the parent
    and child accessors, search and structural equality.
  - `ArbolBinarioOrdenado` is the binary search tree: insertion with ties
    to the left, deletion through the in-order predecessor, rotations, the
    three depth-first traversals and the stack-based in-order iterator.
  - `ArbolAVL` rebalances by stored heights.
  - `ArbolRojinegro` does the red-black fixups after insertion and removal.
  - `ArbolBinarioCompleto` is a complete tree filled in breadth-first
    order, with its level-order walk and iterator.
- **Linear containers.**
  - `Lista` is a doubly linked list: insertion, removal, reversal, copy,
    the stable merge sort, search and its iterator.
  - `Pila` and `Cola` model `mete` and `toString`.
- **Heaps.**
  - `MonticuloMinimo` is an array min-heap whose elements know their slot;
    it includes heapify, removal of the minimum or of a given element, and
    heap sort.
  - `MonticuloArreglo` is a linear-scan "heap" over an array.
- **`Arreglos`.** In-place quick sort and selection sort, and binary
  search.
- **`Grafica`.** An undirected simple graph with adjacency lists:
  vertices, edges, breadth- and depth-first traversal by colouring, and
  connectivity.
- **Front end.**
  - `Archivo.organiza` drops comment lines and splits the rest on spaces.
  - `Identificador.define` maps a class name to the structure to draw.

Trees are values. `Arbol<A>` is either `Vacio` or
`Nodo(izq, elem, info, der)`, where `info` is the per-variant payload:

- nothing, for plain and complete trees;
- the stored height, for AVL trees;
- the colour, for red-black trees.

A vertex is named by its path from the root, a `seq<Dir>`. The Java
classes that own a tree become Dafny classes holding `raiz` and
`elementos`. Each rewiring algorithm is a function on the tree and the
path it is visiting, and lemmas prove that it keeps the in-order
sequence, the multiset of elements and the shape invariant (search order,
AVL balance, red-black colouring, completeness).

The linked list and the stack and queue keep real `Nodo` objects with
`siguiente`/`anterior` fields behind a ghost sequence of nodes. The heaps
work on `array`s. The graph keeps its vertex list, its adjacency map and
its colours as fields, and its traversals are loops proved against a
reachability specification.

Java's `Comparable` elements are `int`. A `Comparator` is a key function
`clave: T -> int`: two elements compare as their keys do, which is a
total preorder, so stability is observable. A Java `null` argument is
`None` of `Option` where the source tests for it. Exceptions are results:
`Resultado` (`Exito`/`Falla`) or `Salida` (`Normal`/`Lanza`), carrying an
`Excepcion`.

## Model

All source paths are under `src/main/java/mx/unam/ciencias/edd/`.

| member | source | states |
|---|---|---|
| Arboles.AlturaDe | src/main/java/mx/unam/ciencias/edd/ArbolBinario.java:110-115 | the height is -1 exactly for an absent subtree and never below -1 |
| Arboles.AlturaCota | src/main/java/mx/unam/ciencias/edd/ArbolBinario.java:110-115 | every vertex lies at a depth no greater than the tree's height |
| Arboles.MasProfundo | src/main/java/mx/unam/ciencias/edd/ArbolBinario.java:110-115 | a non-empty tree has a vertex whose depth equals its height, so the height is attained |
| Arboles.ProfundidadLongitud | src/main/java/mx/unam/ciencias/edd/ArbolBinario.java:126-131 | the depth computed by climbing parents (0 at the root, one more than the parent's) equals the length of the vertex's path |
| Arboles.Padre | src/main/java/mx/unam/ciencias/edd/ArbolBinario.java:67-72 | `padre` fails with NoSuchElementException exactly at the root; otherwise it is a vertex one step up whose path extended by the last step gives back the vertex |
| Arboles.Izquierdo | src/main/java/mx/unam/ciencias/edd/ArbolBinario.java:79-84 | `izquierdo` fails with NoSuchElementException exactly when the left child is absent; otherwise it names the vertex holding the left subtree |
| Arboles.Derecho | src/main/java/mx/unam/ciencias/edd/ArbolBinario.java:91-96 | the mirror of `izquierdo` for the right child |
| Arboles.Tamano | src/main/java/mx/unam/ciencias/edd/ArbolBinario.java:239-241 | the number of vertices is the size of the multiset of elements |
| Arboles.InOrdenElementos | src/main/java/mx/unam/ciencias/edd/ArbolBinario.java:239-241 | the in-order sequence holds exactly the tree's elements, with multiplicity |
| Arboles.PreOrdenElementos | src/main/java/mx/unam/ciencias/edd/ArbolBinarioOrdenado.java:373-394 | the pre-order sequence holds every element of the tree exactly as often as the tree does |
| Arboles.PostOrdenElementos | src/main/java/mx/unam/ciencias/edd/ArbolBinarioOrdenado.java:429-450 | the post-order sequence holds every element of the tree exactly as often as the tree does |
| Arboles.BuscaEn | src/main/java/mx/unam/ciencias/edd/ArbolBinario.java:270-286 | `busca` finds nothing exactly for null or an element not in the tree; otherwise it returns a vertex holding the element, the root when the root holds it, and a right-subtree vertex only when the left subtree lacks the element |
| Arboles.Iguales | src/main/java/mx/unam/ciencias/edd/ArbolBinario.java:162-175 | vertex equality holds exactly when the two trees have the same shape and the same elements at every vertex |
| Arboles.ArbolBinario.constructor | src/main/java/mx/unam/ciencias/edd/ArbolBinario.java:194-206 | a new tree is empty with count 0 |
| Arboles.ArbolBinario.Altura | src/main/java/mx/unam/ciencias/edd/ArbolBinario.java:227-233 | the tree's height: -1 exactly when empty, otherwise the depth of its deepest vertex |
| Arboles.ArbolBinario.Raiz | src/main/java/mx/unam/ciencias/edd/ArbolBinario.java:293-298 | `raiz` throws NoSuchElementException exactly on an empty tree; otherwise it returns the root vertex |
| Arboles.ArbolBinario.EsVacia | src/main/java/mx/unam/ciencias/edd/ArbolBinario.java:305-307 | empty exactly when there is no root and the count is 0, that is when the tree holds no element |
| Arboles.ArbolBinario.Limpia | src/main/java/mx/unam/ciencias/edd/ArbolBinario.java:312-315 | afterwards the root is absent and the count is 0 |
| Arboles.ArbolBinario.Contiene | src/main/java/mx/unam/ciencias/edd/ArbolBinario.java:249-251 | true exactly for a non-null element that is in the tree |
| Arboles.ArbolBinario.Busca | src/main/java/mx/unam/ciencias/edd/ArbolBinario.java:270-286 | none exactly for null or an absent element; otherwise a vertex holding the element |
| Arboles.ArbolBinario.Equals | src/main/java/mx/unam/ciencias/edd/ArbolBinario.java:323-336 | two trees are equal exactly when they have the same shape and the same elements at every vertex (both empty included) |
| ArbolesOrdenados.OrdenadoInOrden | src/main/java/mx/unam/ciencias/edd/ArbolBinarioOrdenado.java:129-145 | a tree is a search tree (left subtree at most the vertex, right subtree at least) exactly when its in-order sequence is non-decreasing |
| ArbolesOrdenados.Hueco | src/main/java/mx/unam/ciencias/edd/ArbolBinarioOrdenado.java:129-145 | the descent of `agrega` (left on ties) ends at an empty position of the tree |
| ArbolesOrdenados.AgregaHojaElementos | src/main/java/mx/unam/ciencias/edd/ArbolBinarioOrdenado.java:129-145 | insertion adds exactly one copy of the element |
| ArbolesOrdenados.AgregaHojaOrdenado | src/main/java/mx/unam/ciencias/edd/ArbolBinarioOrdenado.java:129-145 | insertion into a search tree gives a search tree |
| ArbolesOrdenados.AgregaHojaEnHueco | src/main/java/mx/unam/ciencias/edd/ArbolBinarioOrdenado.java:306-308 | the new element sits in a leaf at the position the descent found, which is the vertex `getUltimoVerticeAgregado` returns |
| ArbolesOrdenados.BuscaOrdenado | src/main/java/mx/unam/ciencias/edd/ArbolBinarioOrdenado.java:278-293 | a found vertex holds the element; in a search tree the ordered descent finds nothing exactly when the element is absent |
| ArbolesOrdenados.MaximoEn | src/main/java/mx/unam/ciencias/edd/ArbolBinarioOrdenado.java:177-182 | `maximoEnSubarbol` reaches a vertex without right child whose element is the subtree's maximum in a search tree |
| ArbolesOrdenados.IntercambiaEliminableCorrecto | src/main/java/mx/unam/ciencias/edd/ArbolBinarioOrdenado.java:204-210 | after swapping with the left subtree's maximum, the returned vertex lies in the left subtree, has no right child, holds the removed element, and the multiset is unchanged |
| ArbolesOrdenados.EliminaEnCorrecto | src/main/java/mx/unam/ciencias/edd/ArbolBinarioOrdenado.java:218-256 | splicing out a vertex (after the swap when it has two children) removes exactly one copy of its element and keeps the search order |
| ArbolesOrdenados.QuitaCorrecto | src/main/java/mx/unam/ciencias/edd/ArbolBinarioOrdenado.java:153-170 | the whole removal of a vertex loses one copy of its element and one vertex, and keeps the search order |
| ArbolesOrdenados.RotaDerecha | src/main/java/mx/unam/ciencias/edd/ArbolBinarioOrdenado.java:315-337 | the right rotation of a vertex keeps its in-order sequence |
| ArbolesOrdenados.RotaIzquierda | src/main/java/mx/unam/ciencias/edd/ArbolBinarioOrdenado.java:344-366 | the left rotation keeps the in-order sequence |
| ArbolesOrdenados.GiroDerechoCorrecto | src/main/java/mx/unam/ciencias/edd/ArbolBinarioOrdenado.java:315-337 | `giraDerecha` anywhere in a tree (a no-op without a left child) keeps the in-order sequence, the elements and the search order |
| ArbolesOrdenados.GiroIzquierdoCorrecto | src/main/java/mx/unam/ciencias/edd/ArbolBinarioOrdenado.java:344-366 | the same for `giraIzquierda` |
| ArbolesOrdenados.GirosInversos | src/main/java/mx/unam/ciencias/edd/ArbolBinarioOrdenado.java:315-366 | a left rotation undoes a right rotation at the same vertex |
| ArbolesOrdenados.MismoInOrden | src/main/java/mx/unam/ciencias/edd/ArbolBinarioOrdenado.java:315-366 | trees with the same in-order sequence have the same elements and size, and one is a search tree exactly when the other is |
| ArbolesOrdenados.ArbolBinarioOrdenado.constructor | src/main/java/mx/unam/ciencias/edd/ArbolBinarioOrdenado.java:71-81 | an empty search tree with no last-added vertex |
| ArbolesOrdenados.ArbolBinarioOrdenado.Agrega | src/main/java/mx/unam/ciencias/edd/ArbolBinarioOrdenado.java:111-123 | null throws IllegalArgumentException and changes nothing; otherwise the element goes into a new leaf at the end of the descent, the count grows by one, and `ultimoAgregado` names that leaf |
| ArbolesOrdenados.ArbolBinarioOrdenado.Busca | src/main/java/mx/unam/ciencias/edd/ArbolBinarioOrdenado.java:265-270 | none exactly for null or an absent element; otherwise a vertex holding the element, the one the comparison descent reaches |
| ArbolesOrdenados.ArbolBinarioOrdenado.Elimina | src/main/java/mx/unam/ciencias/edd/ArbolBinarioOrdenado.java:153-170 | null or an absent element changes nothing; otherwise the new tree is the old one with the vertex `busca` finds removed, so one copy of the element is gone, the count drops by one and the tree stays a search tree |
| ArbolesOrdenados.ArbolBinarioOrdenado.EliminaEncontrado | src/main/java/mx/unam/ciencias/edd/ArbolBinarioOrdenado.java:160-169 | the removal of a found vertex: the tree becomes `Quita` of the old one and loses that vertex's element |
| ArbolesOrdenados.ArbolBinarioOrdenado.GiraDerecha | src/main/java/mx/unam/ciencias/edd/ArbolBinarioOrdenado.java:315-337 | the rotation keeps the search tree, the in-order sequence and the count |
| ArbolesOrdenados.ArbolBinarioOrdenado.GiraIzquierda | src/main/java/mx/unam/ciencias/edd/ArbolBinarioOrdenado.java:344-366 | the same for the left rotation |
| Recorridos.VisitasSonVertices | src/main/java/mx/unam/ciencias/edd/ArbolBinarioOrdenado.java:386-450 | each depth-first traversal visits exactly the vertices of the tree |
| Recorridos.VisitasUnaVez | src/main/java/mx/unam/ciencias/edd/ArbolBinarioOrdenado.java:386-450 | each depth-first traversal visits every vertex once: no repeats, as many visits as vertices |
| Recorridos.VisitasElementos | src/main/java/mx/unam/ciencias/edd/ArbolBinarioOrdenado.java:386-450 | the elements at the visited vertices, in visit order, are the pre-, in- or post-order sequence |
| Recorridos.Iterador.constructor | src/main/java/mx/unam/ciencias/edd/ArbolBinarioOrdenado.java:27-37 | the new iterator has the whole in-order sequence pending |
| Recorridos.Iterador.MeteEspina | src/main/java/mx/unam/ciencias/edd/ArbolBinarioOrdenado.java:31-36 | pushing a vertex and its left spine puts its subtree's in-order sequence in front of what was pending |
| Recorridos.Iterador.HasNext | src/main/java/mx/unam/ciencias/edd/ArbolBinarioOrdenado.java:40-42 | true exactly when some element is pending |
| Recorridos.Iterador.Next | src/main/java/mx/unam/ciencias/edd/ArbolBinarioOrdenado.java:45-55 | fails with NoSuchElementException exactly when nothing is pending; otherwise returns the first pending element and leaves the rest pending |
| Recorridos.PendienteTope | src/main/java/mx/unam/ciencias/edd/ArbolBinarioOrdenado.java:45-55 | what remains to be yielded with a vertex on top of the stack is that vertex, then the in-order sequence of its right subtree, then what the rest of the stack still owes |
| ArbolesAVL.ConAltura | src/main/java/mx/unam/ciencias/edd/ArbolAVL.java:248-254 | `setAltura` changes only the stored height: emptiness and in-order sequence are kept |
| ArbolesAVL.ConAlturaCorrecta | src/main/java/mx/unam/ciencias/edd/ArbolAVL.java:248-271 | over subtrees that are AVL, the stored height becomes the true height, and the vertex is AVL exactly when the heights of its subtrees differ by at most one |
| ArbolesAVL.AlturaGuardadaAVL | src/main/java/mx/unam/ciencias/edd/ArbolAVL.java:266-271 | in an AVL tree the stored height (`auxAltura`, -1 when absent) is the true height |
| ArbolesAVL.BalanceAVL | src/main/java/mx/unam/ciencias/edd/ArbolAVL.java:237-241 | in an AVL tree every vertex has balance -1, 0 or 1 |
| ArbolesAVL.Ajusta | src/main/java/mx/unam/ciencias/edd/ArbolAVL.java:200-223 | one visit of `rebalancea` (height update, single or double rotation) keeps the in-order sequence |
| ArbolesAVL.AjustaIzquierdaSimple | src/main/java/mx/unam/ciencias/edd/ArbolAVL.java:203-212 | at balance -2 with the right child not leaning left, one left rotation and the next visit leave an AVL subtree whose height differs by at most one from before |
| ArbolesAVL.AjustaIzquierdaDoble | src/main/java/mx/unam/ciencias/edd/ArbolAVL.java:203-212 | at balance -2 with the right child of balance 1, the right-then-left double rotation does the same |
| ArbolesAVL.AjustaDerechaSimple | src/main/java/mx/unam/ciencias/edd/ArbolAVL.java:214-222 | the mirror case at balance 2 with one right rotation |
| ArbolesAVL.AjustaDerechaDoble | src/main/java/mx/unam/ciencias/edd/ArbolAVL.java:214-222 | the mirror double rotation at balance 2 |
| ArbolesAVL.PreparaDerecho | src/main/java/mx/unam/ciencias/edd/ArbolAVL.java:204-210 | turning the right child right when it leans left, with its height recomputed, keeps the in-order sequence and leaves a vertex |
| ArbolesAVL.PreparaIzquierdo | src/main/java/mx/unam/ciencias/edd/ArbolAVL.java:215-220 | turning the left child left when it leans right, with its height recomputed, keeps the in-order sequence and leaves a vertex |
| ArbolesAVL.GiraIzquierdaYAjusta | src/main/java/mx/unam/ciencias/edd/ArbolAVL.java:203-212 | the left rotation of a vertex that leans right, with the heights recomputed, keeps the in-order sequence and leaves a vertex |
| ArbolesAVL.GiraDerechaYAjusta | src/main/java/mx/unam/ciencias/edd/ArbolAVL.java:214-222 | the right rotation of a vertex that leans left, with the heights recomputed, keeps the in-order sequence and leaves a vertex |
| ArbolesAVL.AjustaBalanceado | src/main/java/mx/unam/ciencias/edd/ArbolAVL.java:200-223 | a vertex whose balance is already between -1 and 1 only has its height recomputed; the result is an AVL subtree whose height differs from the stored one by at most one |
| ArbolesAVL.AjustaCorrecto | src/main/java/mx/unam/ciencias/edd/ArbolAVL.java:200-227 | at any vertex whose subtrees are AVL and differ by at most two, the visit leaves an AVL subtree whose height moved by at most one |
| ArbolesAVL.RebalanceaCorrecto | src/main/java/mx/unam/ciencias/edd/ArbolAVL.java:195-228 | the upward walk from a vertex that is repairable, in a tree that is AVL around it, ends with an AVL tree of the same in-order sequence |
| ArbolesAVL.AgregaAVLCorrecto | src/main/java/mx/unam/ciencias/edd/ArbolAVL.java:104-108 | insertion into an AVL tree followed by `rebalancea` from the new leaf's parent gives an AVL tree with the in-order sequence of the plain search-tree insertion |
| ArbolesAVL.Eliminable | src/main/java/mx/unam/ciencias/edd/ArbolAVL.java:115-124 | the vertex to take out after the predecessor swap has at most one child |
| ArbolesAVL.EliminableAVL | src/main/java/mx/unam/ciencias/edd/ArbolAVL.java:115-124 | the predecessor swap leaves an AVL tree AVL |
| ArbolesAVL.HijoUnicoAVL | src/main/java/mx/unam/ciencias/edd/ArbolAVL.java:165-187 | replacing an AVL vertex with at most one child by that child (`eliminaUnico`) or by nothing (`eliminaSinHijos`) gives an AVL subtree one lower |
| ArbolesAVL.EliminaAVLCorrecto | src/main/java/mx/unam/ciencias/edd/ArbolAVL.java:115-133 | removal of a vertex of an AVL tree followed by `rebalancea` gives an AVL tree with the in-order sequence of the plain removal |
| ArbolesAVL.IgualesAVL | src/main/java/mx/unam/ciencias/edd/ArbolAVL.java:55-60 | `VerticeAVL.equals` holds only between trees of the same shape and elements |
| ArbolesAVL.AVLFormaDetermina | src/main/java/mx/unam/ciencias/edd/ArbolAVL.java:55-60 | two AVL trees with the same shape and elements also have the same stored heights |
| ArbolesAVL.IgualesAVLCorrecto | src/main/java/mx/unam/ciencias/edd/ArbolAVL.java:55-60 | between AVL trees, `VerticeAVL.equals` holds exactly when they are identical, heights included |
| ArbolesAVL.ArbolAVL.constructor | src/main/java/mx/unam/ciencias/edd/ArbolAVL.java:67-76 | an empty AVL tree |
| ArbolesAVL.ArbolAVL.Agrega | src/main/java/mx/unam/ciencias/edd/ArbolAVL.java:104-108 | null throws IllegalArgumentException and changes nothing; otherwise the tree stays a search tree and AVL, gains one copy of the element and the count grows by one |
| ArbolesAVL.ArbolAVL.Elimina | src/main/java/mx/unam/ciencias/edd/ArbolAVL.java:115-133 | null or an absent element changes nothing; otherwise the new tree is the AVL removal (removal plus `rebalancea`) at the vertex `busca` finds, so one copy is gone, the count drops by one, and the tree stays a search tree and AVL |
| ArbolesAVL.ArbolAVL.GiraDerecha | src/main/java/mx/unam/ciencias/edd/ArbolAVL.java:280-284 | always throws UnsupportedOperationException and changes nothing |
| ArbolesAVL.ArbolAVL.GiraIzquierda | src/main/java/mx/unam/ciencias/edd/ArbolAVL.java:293-297 | always throws UnsupportedOperationException and changes nothing |
| ArbolesAVL.ArbolAVL.Equals | src/main/java/mx/unam/ciencias/edd/ArbolAVL.java:55-60 | two valid AVL trees are equal exactly when identical |
| ArbolesRojinegros.Pinta | src/main/java/mx/unam/ciencias/edd/ArbolRojinegro.java:157-208 | recolouring a vertex keeps the tree's shape and in-order sequence |
| ArbolesRojinegros.GiraHacia | src/main/java/mx/unam/ciencias/edd/ArbolRojinegro.java:403-420 | the rotations the fixups use keep the in-order sequence |
| ArbolesRojinegros.SubarbolRN | src/main/java/mx/unam/ciencias/edd/ArbolRojinegro.java:7-13 | every subtree of a red-black subtree has no red vertex with a red child and equal black heights |
| ArbolesRojinegros.PasoAgrega | src/main/java/mx/unam/ciencias/edd/ArbolRojinegro.java:165-207 | one step of `rebalanceaAgrega` at the grandparent never fails and leaves a vertex |
| ArbolesRojinegros.PasoAgregaSube | src/main/java/mx/unam/ciencias/edd/ArbolRojinegro.java:179-185 | with a red uncle, parent and uncle turn black, the grandparent red, the black height is kept and the walk goes up to the grandparent |
| ArbolesRojinegros.PasoAgregaTermina | src/main/java/mx/unam/ciencias/edd/ArbolRojinegro.java:187-207 | with a black uncle, the crossed-vertex rotation and the final rotation at the grandparent end the walk with a red-black subtree of the same black height and in-order sequence |
| ArbolesRojinegros.AgregaPadreNegro | src/main/java/mx/unam/ciencias/edd/ArbolRojinegro.java:165-169 | under a black parent the walk stops and the tree is already red-black |
| ArbolesRojinegros.AgregaPadreRojo | src/main/java/mx/unam/ciencias/edd/ArbolRojinegro.java:171-207 | under a red parent the grandparent exists and is the window of the step; the step either ends the walk or repaints and goes on from the grandparent, one level higher |
| ArbolesRojinegros.RebalanceaAgregaPaso | src/main/java/mx/unam/ciencias/edd/ArbolRojinegro.java:157-208 | one step of the insertion walk either ends with a red-black tree or leaves a red vertex strictly closer to the root with only its parent possibly red |
| ArbolesRojinegros.RebalanceaAgregaCorrecto | src/main/java/mx/unam/ciencias/edd/ArbolRojinegro.java:157-208 | `rebalanceaAgrega` from a red vertex whose only defect is a red parent ends with a red-black tree (black root) of the same in-order sequence |
| ArbolesRojinegros.AgregaRNCorrecto | src/main/java/mx/unam/ciencias/edd/ArbolRojinegro.java:126-131 | insertion of a red leaf followed by `rebalanceaAgrega` gives a red-black tree with the in-order sequence of the plain insertion |
| ArbolesRojinegros.RestoNegro | src/main/java/mx/unam/ciencias/edd/ArbolRojinegro.java:319-369 | the cases after a black sibling: with a red parent the walk never goes up |
| ArbolesRojinegros.RestoNegroHermanoNegro | src/main/java/mx/unam/ciencias/edd/ArbolRojinegro.java:322-336 | a black sibling with black children turns red; a black parent passes the missing black up, a red parent turns black and ends the walk |
| ArbolesRojinegros.RestoNegroSobrinoRojo | src/main/java/mx/unam/ciencias/edd/ArbolRojinegro.java:338-369 | a black sibling with a red child: cases 5 and 6 restore the missing black and end the walk with a red-black subtree of the same black height and in-order sequence |
| ArbolesRojinegros.Caso5Correcto | src/main/java/mx/unam/ciencias/edd/ArbolRojinegro.java:338-355 | the near nephew red and the far one black: recolouring and rotating the sibling keeps the in-order sequence and leaves a red far nephew |
| ArbolesRojinegros.Caso6Correcto | src/main/java/mx/unam/ciencias/edd/ArbolRojinegro.java:357-369 | a red far nephew: the final recolouring and rotation at the parent restores the black height and ends the walk |
| ArbolesRojinegros.RestoNegroCorrecto | src/main/java/mx/unam/ciencias/edd/ArbolRojinegro.java:319-369 | with a black sibling, the remaining cases either repair the subtree or pass one missing black up, keeping the in-order sequence |
| ArbolesRojinegros.PasoNegroCorrecto | src/main/java/mx/unam/ciencias/edd/ArbolRojinegro.java:304-369 | one visit of `rebalanceaNegro`, including the red-sibling rotation, repairs the parent's subtree or moves the defect one level up |
| ArbolesRojinegros.PasoNegroEnArbol | src/main/java/mx/unam/ciencias/edd/ArbolRojinegro.java:298-370 | one step of the removal walk, put back into the whole tree, either gives a red-black tree or leaves the parent one black short, with the in-order sequence unchanged |
| ArbolesRojinegros.RebalanceaNegroCorrecto | src/main/java/mx/unam/ciencias/edd/ArbolRojinegro.java:298-370 | `rebalanceaNegro` from a position one black short ends with a red-black tree of the same in-order sequence |
| ArbolesRojinegros.EliminableRN | src/main/java/mx/unam/ciencias/edd/ArbolRojinegro.java:222-225 | the vertex to take out after the predecessor swap has at most one child |
| ArbolesRojinegros.EliminableRNRojinegro | src/main/java/mx/unam/ciencias/edd/ArbolRojinegro.java:222-225 | the swap moves only elements, so the tree stays red-black |
| ArbolesRojinegros.EliminableRNInOrden | src/main/java/mx/unam/ciencias/edd/ArbolRojinegro.java:216-233 | swapping the vertex with its in-order predecessor and splicing that one out gives the in-order sequence with the removed element taken out at its position |
| ArbolesRojinegros.HijoUnicoRN | src/main/java/mx/unam/ciencias/edd/ArbolRojinegro.java:234-240 | the child of a vertex with at most one child has black height 0; a red vertex, or a black one with a black child, has no child at all |
| ArbolesRojinegros.DesprendeNegro | src/main/java/mx/unam/ciencias/edd/ArbolRojinegro.java:234-237 | removing a black vertex whose replacement (a real child or the phantom) is black leaves that position one black short, which is what `rebalanceaNegro` repairs |
| ArbolesRojinegros.DesprendeRojo | src/main/java/mx/unam/ciencias/edd/ArbolRojinegro.java:238-241 | otherwise colouring the replacement black and detaching the phantom keeps the tree red-black |
| ArbolesRojinegros.EliminaRNCorrecto | src/main/java/mx/unam/ciencias/edd/ArbolRojinegro.java:216-243 | removal from a red-black tree gives a red-black tree with the in-order sequence of the plain removal |
| ArbolesRojinegros.EliminaRNValido | src/main/java/mx/unam/ciencias/edd/ArbolRojinegro.java:216-243 | on a red-black search tree the removal keeps the search order and loses one copy of the element |
| ArbolesRojinegros.IgualesRNComoEscrito | src/main/java/mx/unam/ciencias/edd/ArbolRojinegro.java:62-68 | `VerticeRojinegro.equals` as written: a true answer means the same shape and elements and the same colour at the top vertex; below it colours are not compared |
| ArbolesRojinegros.IgualesRNIgnoraColores | src/main/java/mx/unam/ciencias/edd/ArbolRojinegro.java:62-68 | two valid red-black search trees on 1, 2, 3 that differ only in the children's colours compare equal as written |
| ArbolesRojinegros.IgualesRN | src/main/java/mx/unam/ciencias/edd/ArbolRojinegro.java:52-68 | equality with colours compared at every vertex holds exactly between identical trees |
| ArbolesRojinegros.ArbolRojinegro.constructor | src/main/java/mx/unam/ciencias/edd/ArbolRojinegro.java:75-85 | an empty red-black tree |
| ArbolesRojinegros.ArbolRojinegro.GetColor | src/main/java/mx/unam/ciencias/edd/ArbolRojinegro.java:116-118 | the colour stored at the vertex; red or black in a valid tree, and black at the root |
| ArbolesRojinegros.ArbolRojinegro.Agrega | src/main/java/mx/unam/ciencias/edd/ArbolRojinegro.java:126-131 | null throws IllegalArgumentException and changes nothing; otherwise the tree stays a red-black search tree, gains one copy and the count grows by one |
| ArbolesRojinegros.ArbolRojinegro.Elimina | src/main/java/mx/unam/ciencias/edd/ArbolRojinegro.java:216-243 | null or an absent element changes nothing; otherwise the new tree is the red-black removal (removal plus `rebalanceaNegro`) at the vertex `busca` finds, so one copy is gone, the count drops by one and the tree stays a red-black search tree |
| ArbolesRojinegros.ArbolRojinegro.GiraDerecha | src/main/java/mx/unam/ciencias/edd/ArbolRojinegro.java:416-420 | always throws UnsupportedOperationException and changes nothing |
| ArbolesRojinegros.ArbolRojinegro.GiraIzquierda | src/main/java/mx/unam/ciencias/edd/ArbolRojinegro.java:403-407 | always throws UnsupportedOperationException and changes nothing |
| ArbolesRojinegros.ArbolRojinegro.Equals | src/main/java/mx/unam/ciencias/edd/ArbolRojinegro.java:52-68 | two trees are equal exactly when identical, colours included (the corrected comparison) |
| ArbolesCompletos.IndiceRuta | src/main/java/mx/unam/ciencias/edd/ArbolBinarioCompleto.java:8-9 | numbering vertices 1, 2, 3, … in level order, the path of vertex `i` has number `i` |
| ArbolesCompletos.RutaIndice | src/main/java/mx/unam/ciencias/edd/ArbolBinarioCompleto.java:8-9 | and every path is the path of its own number |
| ArbolesCompletos.NumeroDeVertice | src/main/java/mx/unam/ciencias/edd/ArbolBinarioCompleto.java:8-9 | in a complete tree of `n` vertices, a path is a vertex exactly when its number is at most `n` |
| ArbolesCompletos.ElementosNiveles | src/main/java/mx/unam/ciencias/edd/ArbolBinarioCompleto.java:8-9 | the level-order sequence holds exactly the tree's elements and the tree has `n` vertices |
| ArbolesCompletos.RutaLongitud | src/main/java/mx/unam/ciencias/edd/ArbolBinarioCompleto.java:8-9 | vertex number i lies at depth floor(log2 i) |
| ArbolesCompletos.Niveles | src/main/java/mx/unam/ciencias/edd/ArbolBinarioCompleto.java:200-214 | the level order of a complete tree of n vertices has n entries, entry k being the element of vertex k+1 |
| ArbolesCompletos.VacioCompleto | src/main/java/mx/unam/ciencias/edd/ArbolBinarioCompleto.java:49-59 | the empty tree is complete with zero vertices and has no vertex |
| ArbolesCompletos.NumeroEn | src/main/java/mx/unam/ciencias/edd/ArbolBinarioCompleto.java:131-135 | every vertex of a complete tree of n vertices is vertex number j for some j between 1 and n |
| ArbolesCompletos.SiguienteEsPosicion | src/main/java/mx/unam/ciencias/edd/ArbolBinarioCompleto.java:102-121 | vertex `n + 1` is an empty position whose parent exists |
| ArbolesCompletos.HuecoEn | src/main/java/mx/unam/ciencias/edd/ArbolBinarioCompleto.java:102-121 | the first vertex in level order missing its left child, or else its right one, has that missing child at position `n + 1` |
| ArbolesCompletos.LlenosAntes | src/main/java/mx/unam/ciencias/edd/ArbolBinarioCompleto.java:102-121 | every vertex taken from the queue before vertex k has both children, so the search does not stop there |
| ArbolesCompletos.HuecoIzquierdo | src/main/java/mx/unam/ciencias/edd/ArbolBinarioCompleto.java:102-121 | with n odd, vertex (n+1)/2 has no left child and position n+1 is that left child |
| ArbolesCompletos.HuecoDerecho | src/main/java/mx/unam/ciencias/edd/ArbolBinarioCompleto.java:102-121 | with n even, vertex (n+1)/2 has a left child but no right child and position n+1 is that right child |
| ArbolesCompletos.PrimerHueco | src/main/java/mx/unam/ciencias/edd/ArbolBinarioCompleto.java:102-121 | the first vertex the search finds with a missing child is vertex (n+1)/2, and the missing child is position n+1 |
| ArbolesCompletos.ConHoja | src/main/java/mx/unam/ciencias/edd/ArbolBinarioCompleto.java:92-122 | hanging a leaf at position `n + 1` keeps the tree complete, appends its element to the level order and adds it to the elements |
| ArbolesCompletos.AgregaCompleto | src/main/java/mx/unam/ciencias/edd/ArbolBinarioCompleto.java:92-122 | hanging a leaf at position n+1 gives a complete tree of n+1 vertices whose level order is the old one followed by the leaf's element |
| ArbolesCompletos.UltimoEsHoja | src/main/java/mx/unam/ciencias/edd/ArbolBinarioCompleto.java:157-169 | the last vertex of a complete tree is a leaf |
| ArbolesCompletos.SinVertice | src/main/java/mx/unam/ciencias/edd/ArbolBinarioCompleto.java:140-151 | swapping vertex `j` with the last one and cutting the last keeps the tree complete with `n - 1` vertices and drops entry `j` from the level order, the last element taking its place |
| ArbolesCompletos.QuitaUltimoCompleto | src/main/java/mx/unam/ciencias/edd/ArbolBinarioCompleto.java:140-150 | cutting vertex n gives a complete tree of n-1 vertices whose level order is the old one without its last entry |
| ArbolesCompletos.IntercambiaNiveles | src/main/java/mx/unam/ciencias/edd/ArbolBinarioCompleto.java:176-180 | swapping the elements of vertices j and m keeps the tree complete with the same vertices and swaps entries j and m of the level order |
| ArbolesCompletos.EliminaCompleto | src/main/java/mx/unam/ciencias/edd/ArbolBinarioCompleto.java:130-151 | swapping vertex j with the last vertex and cutting the last gives a complete tree of n-1 vertices whose level order is the old one without entry j |
| ArbolesCompletos.EliminaCorrecto | src/main/java/mx/unam/ciencias/edd/ArbolBinarioCompleto.java:130-151 | that removal loses exactly one copy of the removed vertex's element |
| ArbolesCompletos.AlturaCompleto | src/main/java/mx/unam/ciencias/edd/ArbolBinarioCompleto.java:182-193 | a complete tree of `n >= 1` vertices has height floor(log2 n) |
| ArbolesCompletos.VisitaCadaVertice | src/main/java/mx/unam/ciencias/edd/ArbolBinarioCompleto.java:200-214 | the level-order walk visits every vertex and nothing else, with no repeats |
| ArbolesCompletos.ColaBfsPaso | src/main/java/mx/unam/ciencias/edd/ArbolBinarioCompleto.java:206-213 | the queue that starts at vertex k holds vertex k first; taking it out and adding its existing children (left exactly when 2k <= n, right exactly when 2k+1 <= n) gives the queue that starts at vertex k+1 |
| ArbolesCompletos.PendientesPaso | src/main/java/mx/unam/ciencias/edd/ArbolBinarioCompleto.java:33-42 | the level order from vertex k on is the element of vertex k followed by the level order from vertex k+1 on |
| ArbolesCompletos.ArbolBinarioCompleto.constructor | src/main/java/mx/unam/ciencias/edd/ArbolBinarioCompleto.java:49-59 | an empty complete tree |
| ArbolesCompletos.ArbolBinarioCompleto.Agrega | src/main/java/mx/unam/ciencias/edd/ArbolBinarioCompleto.java:92-122 | null throws IllegalArgumentException and changes nothing; otherwise the new leaf is vertex `n + 1`, the tree stays complete, the element joins the end of the level order and the count grows by one |
| ArbolesCompletos.ArbolBinarioCompleto.Hueco | src/main/java/mx/unam/ciencias/edd/ArbolBinarioCompleto.java:102-121 | the breadth-first search for a free child ends at the position of vertex `n + 1` |
| ArbolesCompletos.ArbolBinarioCompleto.UltimoCola | src/main/java/mx/unam/ciencias/edd/ArbolBinarioCompleto.java:157-169 | the last vertex out of the breadth-first queue is vertex `n`, the last in level order |
| ArbolesCompletos.ArbolBinarioCompleto.Elimina | src/main/java/mx/unam/ciencias/edd/ArbolBinarioCompleto.java:130-151 | null or an absent element changes nothing; otherwise the vertex `busca` finds loses its element to the last vertex, which is cut; the tree stays complete and loses one copy |
| ArbolesCompletos.ArbolBinarioCompleto.SinVerticeEn | src/main/java/mx/unam/ciencias/edd/ArbolBinarioCompleto.java:137-150 | a lone root leaves an empty tree; otherwise the swap with the last vertex and the cut compute `SinVertice` |
| ArbolesCompletos.ArbolBinarioCompleto.Altura | src/main/java/mx/unam/ciencias/edd/ArbolBinarioCompleto.java:187-193 | the value computed from the count alone (-1 when empty, floor(log2 `elementos`) otherwise) is the height of the tree |
| ArbolesCompletos.ArbolBinarioCompleto.Bfs | src/main/java/mx/unam/ciencias/edd/ArbolBinarioCompleto.java:200-214 | the walk visits vertices 1 … n in level order, each vertex exactly once |
| ArbolesCompletos.ArbolBinarioCompleto.Iterator | src/main/java/mx/unam/ciencias/edd/ArbolBinarioCompleto.java:220-222 | a new iterator has the whole level-order sequence pending |
| ArbolesCompletos.Iterador.constructor | src/main/java/mx/unam/ciencias/edd/ArbolBinarioCompleto.java:20-25 | the iterator starts with the level-order sequence pending |
| ArbolesCompletos.Iterador.HasNext | src/main/java/mx/unam/ciencias/edd/ArbolBinarioCompleto.java:28-30 | true exactly when some element is pending |
| ArbolesCompletos.Iterador.Next | src/main/java/mx/unam/ciencias/edd/ArbolBinarioCompleto.java:33-42 | fails with NoSuchElementException exactly when nothing is pending; otherwise returns the next element in level order |
| Listas.Invertida | src/main/java/mx/unam/ciencias/edd/Lista.java:327-335 | the reverse has the same length and position `i` holds the element at the mirrored position |
| Listas.InvertidaInvolutiva | src/main/java/mx/unam/ciencias/edd/Lista.java:327-335 | reversing twice gives the list back |
| Listas.Indice | src/main/java/mx/unam/ciencias/edd/Lista.java:410-421 | the index of the first equal element, or -1 exactly when there is none |
| Listas.SinPrimera | src/main/java/mx/unam/ciencias/edd/Lista.java:247-271 | removing the first occurrence loses one copy and one position when present, and changes nothing otherwise |
| Listas.Texto | src/main/java/mx/unam/ciencias/edd/Lista.java:427-438 | the text of a list starts with `[` and ends with `]` |
| Listas.Lista.constructor | src/main/java/mx/unam/ciencias/edd/Lista.java:93-97 | a new list is empty and owns no node |
| Listas.Nodo.constructor | src/main/java/mx/unam/ciencias/edd/Lista.java:30-32 | a new node holds the element and is linked to no other node |
| Listas.Lista.EsVacia | src/main/java/mx/unam/ciencias/edd/Lista.java:122-124 | empty exactly when it holds no element |
| Listas.Lista.AgregaFinal | src/main/java/mx/unam/ciencias/edd/Lista.java:145-160 | null throws IllegalArgumentException and changes nothing; otherwise the element becomes the last and the others stay in order |
| Listas.Lista.AgregaInicio | src/main/java/mx/unam/ciencias/edd/Lista.java:169-184 | null throws IllegalArgumentException; otherwise the element becomes the first |
| Listas.Lista.Inserta | src/main/java/mx/unam/ciencias/edd/Lista.java:201-225 | null throws; `i <= 0` prepends, `i >= longitud` appends, otherwise the element ends at index `i` and the rest keep their order |
| Listas.Lista.Enlaza | src/main/java/mx/unam/ciencias/edd/Lista.java:212-224 | a fresh node linked before node `i` puts the element at index `i`, every node keeping its element |
| Listas.Conecta | src/main/java/mx/unam/ciencias/edd/Lista.java:212-224 | linking a new node between nodes i-1 and i keeps the chain of nodes doubly linked, with the node in place i |
| Listas.Lista.BuscaElemento | src/main/java/mx/unam/ciencias/edd/Lista.java:231-240 | null exactly when the element is absent; otherwise the node of its first occurrence |
| Listas.Lista.Elimina | src/main/java/mx/unam/ciencias/edd/Lista.java:247-271 | null changes nothing; otherwise the first occurrence is removed, and nothing changes when there is none |
| Listas.Lista.Desliga | src/main/java/mx/unam/ciencias/edd/Lista.java:254-270 | unlinking node `k` removes exactly position `k` and that node |
| Listas.Salta | src/main/java/mx/unam/ciencias/edd/Lista.java:254-270 | linking nodes k-1 and k+1 to each other takes node k out of the chain and keeps it doubly linked |
| Listas.Lista.EliminaPrimero | src/main/java/mx/unam/ciencias/edd/Lista.java:278-291 | throws NoSuchElementException exactly on an empty list; otherwise returns and removes the first element |
| Listas.Lista.EliminaUltimo | src/main/java/mx/unam/ciencias/edd/Lista.java:298-311 | throws NoSuchElementException exactly on an empty list; otherwise returns and removes the last element |
| Listas.Lista.Contiene | src/main/java/mx/unam/ciencias/edd/Lista.java:319-321 | true exactly when the element is in the list |
| Listas.Lista.Reversa | src/main/java/mx/unam/ciencias/edd/Lista.java:327-335 | a new list, sharing no node with the receiver, holding the reverse |
| Listas.Lista.Copia | src/main/java/mx/unam/ciencias/edd/Lista.java:342-350 | a new list, sharing no node, holding the same elements |
| Listas.Lista.Limpia | src/main/java/mx/unam/ciencias/edd/Lista.java:355-358 | afterwards the list is empty |
| Listas.Lista.GetPrimero | src/main/java/mx/unam/ciencias/edd/Lista.java:365-370 | throws NoSuchElementException exactly when empty; otherwise the first element |
| Listas.Lista.GetUltimo | src/main/java/mx/unam/ciencias/edd/Lista.java:377-382 | throws NoSuchElementException exactly when empty; otherwise the last element |
| Listas.Lista.Get | src/main/java/mx/unam/ciencias/edd/Lista.java:391-402 | throws ExcepcionIndiceInvalido exactly when `i < 0` or `i >= longitud`; otherwise the element at `i` |
| Listas.Lista.IndiceDe | src/main/java/mx/unam/ciencias/edd/Lista.java:410-421 | -1 for a null argument and exactly when the element is absent; otherwise the index of the first equal element |
| Listas.Lista.ToString | src/main/java/mx/unam/ciencias/edd/Lista.java:427-438 | the loop builds the bracketed, comma-separated text of the elements |
| Listas.Lista.Equals | src/main/java/mx/unam/ciencias/edd/Lista.java:446-472 | two lists are equal exactly when they hold the same elements in the same order |
| Listas.Lista.Mezcla | src/main/java/mx/unam/ciencias/edd/Lista.java:496-518 | `mezcla` builds a new list holding the stable merge of the two lists |
| Listas.Lista.MezclaCabezas | src/main/java/mx/unam/ciencias/edd/Lista.java:500-508 | the first loop of `mezcla` leaves one list exhausted, and what it built followed by the merge of the rests is the whole merge |
| Listas.Lista.AgregaResto | src/main/java/mx/unam/ciencias/edd/Lista.java:509-516 | the last loops of `mezcla` append the rest of the other list |
| Listas.Lista.Agotada | src/main/java/mx/unam/ciencias/edd/Lista.java:509-516 | once one of the two lists is used up, the rest of the merge is the rest of the other list |
| Listas.Lista.Paso | src/main/java/mx/unam/ciencias/edd/Lista.java:500-508 | one step of the merge takes the head of the first list when its key is not greater, and the head of the second list when its key is strictly smaller |
| Listas.Lista.MergeSort | src/main/java/mx/unam/ciencias/edd/Lista.java:528-530 | `mergeSort` returns a new list holding the stable merge sort of the receiver |
| Listas.Lista.OrdenaLista | src/main/java/mx/unam/ciencias/edd/Lista.java:537-552 | the recursive sort of a list gives the stable merge sort of its elements |
| Listas.Lista.Divide | src/main/java/mx/unam/ciencias/edd/Lista.java:538-550 | the split gives the first `n - n/2` elements and the last `n/2`, in two new lists sharing no node |
| Listas.Lista.Parte | src/main/java/mx/unam/ciencias/edd/Lista.java:543-549 | the loop moves the first `n - n/2` elements to a new list and leaves the rest |
| Listas.Lista.Mueve | src/main/java/mx/unam/ciencias/edd/Lista.java:543-549 | one iteration moves the first element of the remaining list to the end of the new list, keeping both lists valid and disjoint |
| Listas.OrdenaMezclaDivide | src/main/java/mx/unam/ciencias/edd/Lista.java:537-552 | merging the sorts of the two halves is the merge sort of the whole list |
| Listas.Lista.BusquedaLineal | src/main/java/mx/unam/ciencias/edd/Lista.java:574-583 | true exactly when some element compares equal to the target |
| Listas.Iterador.constructor | src/main/java/mx/unam/ciencias/edd/Lista.java:43-45 | a new iterator stands before the first element |
| Listas.Iterador.HasNext | src/main/java/mx/unam/ciencias/edd/Lista.java:48-50 | true exactly when the iterator is not past the last element |
| Listas.Iterador.HasPrevious | src/main/java/mx/unam/ciencias/edd/Lista.java:65-67 | true exactly when the iterator is not before the first element |
| Listas.Iterador.Next | src/main/java/mx/unam/ciencias/edd/Lista.java:53-62 | throws NoSuchElementException at the end; otherwise returns the next element and moves forward |
| Listas.Iterador.Previous | src/main/java/mx/unam/ciencias/edd/Lista.java:70-77 | throws NoSuchElementException at the start; otherwise returns the previous element and moves back |
| Listas.Iterador.Start | src/main/java/mx/unam/ciencias/edd/Lista.java:80-83 | moves before the first element |
| Listas.Iterador.End | src/main/java/mx/unam/ciencias/edd/Lista.java:86-89 | moves after the last element |
| Ordenes.Mezcla | src/main/java/mx/unam/ciencias/edd/Lista.java:496-518 | the merge has as many elements as both lists together |
| Ordenes.MezclaPermuta | src/main/java/mx/unam/ciencias/edd/Lista.java:496-518 | the merge is a permutation of the two lists together |
| Ordenes.MezclaOrdenada | src/main/java/mx/unam/ciencias/edd/Lista.java:496-518 | merging sorted lists gives a sorted list |
| Ordenes.MezclaEstable | src/main/java/mx/unam/ciencias/edd/Lista.java:501 | taking from the first list on ties keeps, for every key, the first list's elements before the second's, each in order |
| Ordenes.MezclaPaso | src/main/java/mx/unam/ciencias/edd/Lista.java:500-508 | the merge starts with the head of the first list when its key is not greater than the other head, and with the head of the second list when its key is strictly smaller |
| Ordenes.OrdenaMezcla | src/main/java/mx/unam/ciencias/edd/Lista.java:537-552 | sorting by merging keeps the length |
| Ordenes.OrdenaMezclaCorrecta | src/main/java/mx/unam/ciencias/edd/Lista.java:537-552 | merge sort gives a sorted permutation in which equal keys keep their order: the sort is stable |
| Pila.Pila.constructor | src/main/java/mx/unam/ciencias/edd/Pila.java:6 | a new stack is empty |
| MeteSaca.Nodo.constructor | src/main/java/mx/unam/ciencias/edd/Pila.java:35 | a new node holds the element and has no successor |
| Pila.Pila.EsVacia | src/main/java/mx/unam/ciencias/edd/Pila.java:13-15 | empty exactly when it holds no element |
| Pila.Pila.Mete | src/main/java/mx/unam/ciencias/edd/Pila.java:31-44 | null throws IllegalArgumentException and changes nothing; otherwise the element goes on top; on an empty stack the new node is both head and tail, otherwise it becomes the head in front of the old one and the tail stays |
| Pila.Pila.ToString | src/main/java/mx/unam/ciencias/edd/Pila.java:12-23 | the elements from top to bottom, each followed by a line break |
| Cola.Cola.constructor | src/main/java/mx/unam/ciencias/edd/Cola.java:6 | a new queue is empty |
| Cola.Cola.EsVacia | src/main/java/mx/unam/ciencias/edd/Cola.java:13-15 | empty exactly when it holds no element |
| Cola.Cola.Mete | src/main/java/mx/unam/ciencias/edd/Cola.java:31-44 | null throws IllegalArgumentException and changes nothing; otherwise the element goes to the back; on an empty queue the new node is both head and tail, otherwise it is linked after the old tail and becomes the tail, the head staying |
| Cola.Cola.ToString | src/main/java/mx/unam/ciencias/edd/Cola.java:12-23 | the elements from front to back, each followed by a comma |
| MeteSaca.TextoConcatena | src/main/java/mx/unam/ciencias/edd/Cola.java:12-23 | the text of a concatenation is the concatenation of the texts |
| MeteSaca.Recorre | src/main/java/mx/unam/ciencias/edd/Pila.java:12-23 | the `toString` loop over the nodes builds the text of the elements, each followed by the separator |
| MonticuloMinimo.RaizMinima | src/main/java/mx/unam/ciencias/edd/MonticuloMinimo.java:201-212 | in a heap the root holds a minimal key |
| MonticuloMinimo.Intercambio | src/main/java/mx/unam/ciencias/edd/MonticuloMinimo.java:168-176 | swapping two slots keeps the length and the multiset of elements and of keys |
| MonticuloMinimo.PadreHijo | src/main/java/mx/unam/ciencias/edd/MonticuloMinimo.java:151-162 | every slot but the root has its parent (i-1)/2 before it, and is that parent's left or right child |
| MonticuloMinimo.HijoPadre | src/main/java/mx/unam/ciencias/edd/MonticuloMinimo.java:122-144 | slots 2p+1 and 2p+2 have slot p as their parent |
| MonticuloMinimo.MonticuloSinPendientes | src/main/java/mx/unam/ciencias/edd/MonticuloMinimo.java:122-162 | a sequence is a heap exactly when it has no misplaced slot above or below any given slot |
| MonticuloMinimo.SalvoAlAgregar | src/main/java/mx/unam/ciencias/edd/MonticuloMinimo.java:190-193 | appending an element to a heap leaves only the new last slot possibly out of place |
| MonticuloMinimo.SalvoAlQuitar | src/main/java/mx/unam/ciencias/edd/MonticuloMinimo.java:223-228 | moving the last slot of a heap into slot e and cutting the last leaves only slot e possibly out of place |
| MonticuloMinimo.Quitado | src/main/java/mx/unam/ciencias/edd/MonticuloMinimo.java:218-229 | moving the last slot into slot e and cutting the last takes out exactly one copy of the element of slot e |
| MonticuloMinimo.PasoAbajo | src/main/java/mx/unam/ciencias/edd/MonticuloMinimo.java:122-144 | a step of `haciaAbajo` (swap with the smaller child) moves the only defect one level down |
| MonticuloMinimo.PasoArriba | src/main/java/mx/unam/ciencias/edd/MonticuloMinimo.java:151-162 | a step of `haciaArriba` (swap with a larger parent) moves the only defect one level up |
| MonticuloMinimo.Capacidad | src/main/java/mx/unam/ciencias/edd/MonticuloMinimo.java:184 | the corrected growth: always larger than the full array, and twice its length when it is not empty |
| MonticuloMinimo.CapacidadComoEscrita | src/main/java/mx/unam/ciencias/edd/MonticuloMinimo.java:184 | the growth as written: `arbol.length + arbol.length` |
| MonticuloMinimo.CapacidadCeroSinLugar | src/main/java/mx/unam/ciencias/edd/MonticuloMinimo.java:184-190 | from an array of length 0 the written growth leaves no slot for the write at line 190; the corrected one does |
| MonticuloMinimo.MonticuloMinimo.constructor | src/main/java/mx/unam/ciencias/edd/MonticuloMinimo.java:82-84 | an empty heap with room for 100 elements |
| MonticuloMinimo.MonticuloMinimo.Desde | src/main/java/mx/unam/ciencias/edd/MonticuloMinimo.java:107-115 | the heapify constructor gives a heap holding exactly the given elements, each knowing its slot |
| MonticuloMinimo.MonticuloMinimo.AgregaTodos | src/main/java/mx/unam/ciencias/edd/MonticuloMinimo.java:109-111 | the first loop adds every element of the iterable, in order |
| MonticuloMinimo.MonticuloMinimo.Monticuliza | src/main/java/mx/unam/ciencias/edd/MonticuloMinimo.java:112-114 | `haciaAbajo` from the last parent back to the root keeps the heap built by the first loop, with the same elements |
| MonticuloMinimo.MonticuloMinimo.Intercambia | src/main/java/mx/unam/ciencias/edd/MonticuloMinimo.java:168-176 | the two slots exchange elements and each element's index follows it |
| MonticuloMinimo.MonticuloMinimo.HaciaAbajo | src/main/java/mx/unam/ciencias/edd/MonticuloMinimo.java:122-144 | sinking a slot whose only defect is being larger than a child gives a heap of the same elements |
| MonticuloMinimo.MonticuloMinimo.HaciaArriba | src/main/java/mx/unam/ciencias/edd/MonticuloMinimo.java:151-162 | raising a slot whose only defect is being smaller than its parent gives a heap of the same elements |
| MonticuloMinimo.MonticuloMinimo.Reordena | src/main/java/mx/unam/ciencias/edd/MonticuloMinimo.java:267-271 | from a state whose only misplaced slot is the element's, `haciaAbajo` then `haciaArriba` give a heap of the same elements |
| MonticuloMinimo.MonticuloMinimo.Agrega | src/main/java/mx/unam/ciencias/edd/MonticuloMinimo.java:182-194 | the heap gains the element and stays a heap; a full array is replaced by one of the corrected capacity keeping every entry in its slot, otherwise the array stays |
| MonticuloMinimo.MonticuloMinimo.AgregaComoEscrito | src/main/java/mx/unam/ciencias/edd/MonticuloMinimo.java:182-194 | as written: on an array of length 0 the write throws ArrayIndexOutOfBoundsException, exactly then; on any other heap it is `agrega` |
| MonticuloMinimo.MonticuloMinimo.Crece | src/main/java/mx/unam/ciencias/edd/MonticuloMinimo.java:184-188 | the full array is copied into a new one of the next capacity, slot by slot |
| MonticuloMinimo.MonticuloMinimo.QuitaUltimo | src/main/java/mx/unam/ciencias/edd/MonticuloMinimo.java:206-209 | the last slot is emptied, its element gets index -1 and leaves the heap |
| MonticuloMinimo.MonticuloMinimo.SacaEn | src/main/java/mx/unam/ciencias/edd/MonticuloMinimo.java:222-226 | swapping slot e with the last slot and taking that out removes the element of slot e, whose index becomes -1, and leaves only slot e possibly out of place |
| Indexables.Indexable.constructor | src/main/java/mx/unam/ciencias/edd/MonticuloMinimo.java:44-47 | a new adapter holds the element and index -1 |
| MonticuloMinimo.MonticuloMinimo.Elimina | src/main/java/mx/unam/ciencias/edd/MonticuloMinimo.java:201-212 | throws IllegalStateException exactly on an empty heap; otherwise returns a minimal element, which leaves the heap with index -1, and the rest stays a heap |
| MonticuloMinimo.MonticuloMinimo.EliminaElemento | src/main/java/mx/unam/ciencias/edd/MonticuloMinimo.java:218-229 | an element whose index is out of range changes nothing; otherwise it leaves the heap with index -1 and the rest stays a heap |
| MonticuloMinimo.MonticuloMinimo.Contiene | src/main/java/mx/unam/ciencias/edd/MonticuloMinimo.java:237-242 | true exactly when the element is in the heap |
| MonticuloMinimo.MonticuloMinimo.EsVacia | src/main/java/mx/unam/ciencias/edd/MonticuloMinimo.java:249-251 | empty exactly when it holds no element |
| MonticuloMinimo.MonticuloMinimo.Get | src/main/java/mx/unam/ciencias/edd/MonticuloMinimo.java:288-293 | throws NoSuchElementException exactly outside `[0, elementos)`; otherwise the element in that slot |
| MonticuloMinimo.MonticuloMinimo.Limpia | src/main/java/mx/unam/ciencias/edd/MonticuloMinimo.java:256-261 | afterwards the heap is empty and every slot is null |
| MonticuloMinimo.HeapSort | src/main/java/mx/unam/ciencias/edd/MonticuloMinimo.java:344-358 | the result is the collection sorted non-decreasingly, a permutation of it |
| MonticuloMinimo.Adapta | src/main/java/mx/unam/ciencias/edd/MonticuloMinimo.java:346-350 | every value gets its own fresh adapter with that value as key |
| MonticuloMinimo.Extiende | src/main/java/mx/unam/ciencias/edd/MonticuloMinimo.java:353-356 | appending the least key still in the heap keeps the output sorted and no greater than any key left in the heap |
| MonticuloArreglo.Ocupados | src/main/java/mx/unam/ciencias/edd/MonticuloArreglo.java:112-114 | the number of occupied slots, 0 exactly when every slot is null |
| MonticuloArreglo.UltimoOcupado | src/main/java/mx/unam/ciencias/edd/MonticuloArreglo.java:69-91 | the last non-null slot, or -1 when there is none |
| MonticuloArreglo.OcupadosAnula | src/main/java/mx/unam/ciencias/edd/MonticuloArreglo.java:88-89 | setting an occupied slot to null lowers the count of occupied slots by one |
| MonticuloArreglo.MonticuloArreglo.OcupadosLlenos | src/main/java/mx/unam/ciencias/edd/MonticuloArreglo.java:39-48 | an array with no null slot has every slot occupied |
| MonticuloArreglo.MonticuloArreglo.constructor | src/main/java/mx/unam/ciencias/edd/MonticuloArreglo.java:39-48 | element `i` of the iterable goes to slot `i` with index `i`, and the count is `n` |
| MonticuloArreglo.MonticuloArreglo.Elimina | src/main/java/mx/unam/ciencias/edd/MonticuloArreglo.java:55-61 | throws IllegalStateException exactly when the count is 0; otherwise returns a minimal element, whose slot alone becomes null and whose index becomes -1, and the count drops by one |
| MonticuloArreglo.MonticuloArreglo.BuscaMinimo | src/main/java/mx/unam/ciencias/edd/MonticuloArreglo.java:69-91 | a minimal non-null element is taken out: its slot alone becomes null and its index -1; as the two scans pick it, that slot is the last occupied one when that one holds a minimal key, and otherwise the first slot holding a minimal key |
| MonticuloArreglo.MonticuloArreglo.Get | src/main/java/mx/unam/ciencias/edd/MonticuloArreglo.java:100-105 | throws NoSuchElementException exactly when `i < 0` or `i >= elementos`; otherwise the slot's content |
| MonticuloArreglo.MonticuloArreglo.EsVacia | src/main/java/mx/unam/ciencias/edd/MonticuloArreglo.java:112-114 | empty exactly when every slot is null |
| Arreglos.Intercambia | src/main/java/mx/unam/ciencias/edd/Arreglos.java:90-94 | slots `i` and `m` exchange their contents and nothing else changes |
| Arreglos.Particion | src/main/java/mx/unam/ciencias/edd/Arreglos.java:26-51 | the partition permutes only the range, putting the pivot at a slot with nothing larger before it and only larger keys after it |
| Arreglos.QuickSortRango | src/main/java/mx/unam/ciencias/edd/Arreglos.java:19-54 | the range is sorted, the array stays a permutation, nothing outside the range changes, and a range with `b <= a` is untouched |
| Arreglos.QuickSort | src/main/java/mx/unam/ciencias/edd/Arreglos.java:19-54 | the array ends sorted by the comparator and a permutation of what it was |
| Arreglos.PasoParticion | src/main/java/mx/unam/ciencias/edd/Arreglos.java:35-47 | one iteration of the partition loop keeps the partition state and narrows the unexamined window |
| Arreglos.Combina | src/main/java/mx/unam/ciencias/edd/Arreglos.java:48-53 | with the range partitioned around the pivot, sorting both sides leaves the range sorted and everything outside it untouched |
| Arreglos.SelectionSort | src/main/java/mx/unam/ciencias/edd/Arreglos.java:72-81 | the array ends sorted by the comparator and a permutation of what it was |
| Arreglos.PasoSeleccion | src/main/java/mx/unam/ciencias/edd/Arreglos.java:74-80 | swapping a minimum of the unsorted rest into slot i extends the sorted prefix by one, every prefix key staying no greater than the rest |
| Arreglos.BusquedaBinariaRango | src/main/java/mx/unam/ciencias/edd/Arreglos.java:126-142 | -1, always for an empty range, or an index in the range whose element compares equal |
| Arreglos.BusquedaBinariaCompleta | src/main/java/mx/unam/ciencias/edd/Arreglos.java:126-142 | on a sorted range the search gives -1 exactly when no element of the range compares equal |
| Arreglos.BusquedaIzquierda | src/main/java/mx/unam/ciencias/edd/Arreglos.java:135-137 | on a sorted range, when the key is below the middle one, the search of the left half fails exactly when the whole range holds no equal key |
| Arreglos.BusquedaDerecha | src/main/java/mx/unam/ciencias/edd/Arreglos.java:138-140 | on a sorted range, when the key is above the middle one, the search of the right half fails exactly when the whole range holds no equal key |
| Arreglos.BusquedaBinariaOrdenada | src/main/java/mx/unam/ciencias/edd/Arreglos.java:115-117 | on a sorted array the search over the whole array returns -1 exactly when no element compares equal |
| Arreglos.BusquedaBinaria | src/main/java/mx/unam/ciencias/edd/Arreglos.java:115-117 | -1 or an index whose element compares equal; on a sorted array -1 exactly when there is none |
| Arreglos.OrdenNatural | src/main/java/mx/unam/ciencias/edd/Arreglos.java:61-64 | sorted by the natural order (`compareTo`) is sorted by the identity key |
| Arreglos.QuickSortComparable | src/main/java/mx/unam/ciencias/edd/Arreglos.java:61-64 | the `Comparable` quick sort leaves a sorted permutation |
| Arreglos.SelectionSortComparable | src/main/java/mx/unam/ciencias/edd/Arreglos.java:101-104 | the `Comparable` selection sort leaves a sorted permutation |
| Arreglos.BusquedaBinariaComparable | src/main/java/mx/unam/ciencias/edd/Arreglos.java:152-155 | -1 or an index holding the element; on a sorted array -1 exactly when absent |
| Graficas.CuentaEsGrado | src/main/java/mx/unam/ciencias/edd/Grafica.java:191-205 | in a symmetric simple graph, the adjacency lists mentioning a vertex number exactly its degree, which is what `elimina` subtracts from `aristas` |
| Graficas.AlcanzableSimetrica | src/main/java/mx/unam/ciencias/edd/Grafica.java:256-279 | in an undirected graph reachability is symmetric |
| Graficas.AlcanzableTransitiva | src/main/java/mx/unam/ciencias/edd/Grafica.java:256-279 | reachability is transitive |
| Graficas.ConexaDesde | src/main/java/mx/unam/ciencias/edd/Grafica.java:256-279 | the graph is connected exactly when every vertex is reachable from any one given vertex |
| Graficas.UnVerticeConexa | src/main/java/mx/unam/ciencias/edd/Grafica.java:256-279 | a graph with one vertex and no edge is connected |
| Graficas.ConexaComoEscrita | src/main/java/mx/unam/ciencias/edd/Grafica.java:256-279 | the condition `esConexa` ends up testing (every vertex reachable from the first one, the first one marked only through a neighbour) holds exactly for a connected graph of at least two vertices |
| Graficas.AgregaValida | src/main/java/mx/unam/ciencias/edd/Grafica.java:107-113 | a new isolated vertex keeps the graph valid: distinct vertices, symmetric simple adjacency, twice the edge count equal to the degree sum |
| Graficas.ConectaValida | src/main/java/mx/unam/ciencias/edd/Grafica.java:139-151 | a new edge between distinct non-adjacent vertices keeps the graph valid with one more edge |
| Graficas.DesconectaValida | src/main/java/mx/unam/ciencias/edd/Grafica.java:161-173 | removing an edge keeps the graph valid with one edge fewer |
| Graficas.EliminaValida | src/main/java/mx/unam/ciencias/edd/Grafica.java:191-205 | removing a vertex and its edges keeps the graph valid, with the vertex's degree fewer edges |
| Graficas.AgregaEliminaInversa | src/main/java/mx/unam/ciencias/edd/Grafica.java:107-113 | removing a vertex just added gives the graph back |
| Graficas.ConectaDesconectaInversa | src/main/java/mx/unam/ciencias/edd/Grafica.java:139-173 | disconnecting an edge just connected gives the adjacency back |
| Graficas.PrimerAdyacente | src/main/java/mx/unam/ciencias/edd/Grafica.java:337-357 | the first position of a visit order holding a neighbour of a vertex, or the end when there is none |
| Graficas.AnchuraMete | src/main/java/mx/unam/ciencias/edd/Grafica.java:347-351 | adding a neighbour of the vertex being processed to the back of the queue keeps the breadth-first order |
| Graficas.AnchuraAgrega | src/main/java/mx/unam/ciencias/edd/Grafica.java:347-351 | appending a vertex whose first neighbour in the order is the vertex being processed keeps the breadth-first order |
| Graficas.AnchuraSaca | src/main/java/mx/unam/ciencias/edd/Grafica.java:345 | taking the front of the queue keeps the breadth-first order |
| Graficas.VecinosDelInicioPrimero | src/main/java/mx/unam/ciencias/edd/Grafica.java:302-310 | in breadth-first order the start's neighbours come right after it, before every other vertex |
| Graficas.Grafica.constructor | src/main/java/mx/unam/ciencias/edd/Grafica.java:80-82 | an empty graph with no edge |
| Graficas.Grafica.BuscaVertice | src/main/java/mx/unam/ciencias/edd/Grafica.java:121-128 | -1 exactly when absent; otherwise the position of the vertex |
| Graficas.Grafica.Contiene | src/main/java/mx/unam/ciencias/edd/Grafica.java:180-182 | false for a null argument; otherwise true exactly when the element is a vertex |
| Graficas.Grafica.SonVecinos | src/main/java/mx/unam/ciencias/edd/Grafica.java:215-222 | throws NoSuchElementException exactly when an element is missing; otherwise adjacency, symmetric in the two arguments and false for a vertex with itself |
| Graficas.Grafica.Agrega | src/main/java/mx/unam/ciencias/edd/Grafica.java:107-113 | null or a present element throws IllegalArgumentException and changes nothing; otherwise the vertex is appended with no neighbour and colour NINGUNO |
| Graficas.Grafica.Conecta | src/main/java/mx/unam/ciencias/edd/Grafica.java:139-151 | a missing endpoint throws NoSuchElementException; equal or adjacent endpoints throw IllegalArgumentException; otherwise each joins the other's neighbours and `aristas` grows by one |
| Graficas.Grafica.Desconecta | src/main/java/mx/unam/ciencias/edd/Grafica.java:161-173 | a missing endpoint throws NoSuchElementException, non-adjacent ones IllegalArgumentException; otherwise each leaves the other's neighbours and `aristas` drops by one |
| Graficas.Grafica.QuitaVecino | src/main/java/mx/unam/ciencias/edd/Grafica.java:196-201 | one neighbour list loses the removed vertex, and `aristas` drops when it was there |
| Graficas.Grafica.QuitaDeTodas | src/main/java/mx/unam/ciencias/edd/Grafica.java:196-201 | every neighbour list loses the removed vertex, `aristas` dropping once per list that held it |
| Graficas.Grafica.Elimina | src/main/java/mx/unam/ciencias/edd/Grafica.java:191-205 | a missing element throws NoSuchElementException; otherwise the vertex and all its edges are gone and `aristas` drops by its degree |
| Graficas.Grafica.Pinta | src/main/java/mx/unam/ciencias/edd/Grafica.java:339-341 | every vertex gets the given colour and nothing else changes |
| Graficas.Grafica.Explora | src/main/java/mx/unam/ciencias/edd/Grafica.java:342-353 | the colouring loop acts on exactly the vertices reachable from the start, each once, the start first; with a queue, in breadth-first order |
| Graficas.Grafica.SacaExplorando | src/main/java/mx/unam/ciencias/edd/Grafica.java:345-346 | taking a pending vertex from either end and visiting it keeps the exploration invariant |
| Graficas.Grafica.Mete | src/main/java/mx/unam/ciencias/edd/Grafica.java:348-351 | a red neighbour of a visited vertex turns black and joins the pending vertices; nothing else changes |
| Graficas.Grafica.VisitaVecino | src/main/java/mx/unam/ciencias/edd/Grafica.java:347-352 | processing one neighbour keeps the exploration invariant and, for a queue, the breadth-first order |
| Graficas.Grafica.VisitaVecinos | src/main/java/mx/unam/ciencias/edd/Grafica.java:347-352 | processing every neighbour of the visited vertex keeps the exploration invariant, makes the visited vertex covered and, for a queue, keeps the breadth-first order |
| Graficas.Grafica.PasoExplora | src/main/java/mx/unam/ciencias/edd/Grafica.java:344-353 | one iteration visits one pending vertex, keeps the invariant and the breadth-first order for a queue, and decreases the red vertices plus the pending ones |
| Graficas.Grafica.ExploracionTerminada | src/main/java/mx/unam/ciencias/edd/Grafica.java:344-353 | when nothing is pending the visit order starts at the start vertex and holds exactly the vertices reachable from it |
| Graficas.Grafica.Recorrido | src/main/java/mx/unam/ciencias/edd/Grafica.java:337-357 | `recorrido` visits the reachable vertices once each, the start first, in breadth-first order with a queue, and leaves every colour NINGUNO |
| Graficas.Grafica.Bfs | src/main/java/mx/unam/ciencias/edd/Grafica.java:302-310 | a missing start throws NoSuchElementException; otherwise each reachable vertex is acted on once, in breadth-first order, and every colour ends NINGUNO |
| Graficas.Grafica.Dfs | src/main/java/mx/unam/ciencias/edd/Grafica.java:322-330 | a missing start throws NoSuchElementException; otherwise each reachable vertex is acted on once, the start first, and every colour ends NINGUNO |
| Graficas.Grafica.HayRojo | src/main/java/mx/unam/ciencias/edd/Grafica.java:273-278 | true exactly when some vertex is still red |
| Graficas.Grafica.EsConexa | src/main/java/mx/unam/ciencias/edd/Grafica.java:256-279 | as written: NoSuchElementException on an empty graph; otherwise true exactly when the graph is connected and has at least two vertices |
| Graficas.Grafica.EsConexaCorregida | src/main/java/mx/unam/ciencias/edd/Grafica.java:256-279 | corrected: true exactly when the graph is connected, a single vertex included |
| Graficas.Grafica.Limpia | src/main/java/mx/unam/ciencias/edd/Grafica.java:371-374 | afterwards there is no vertex and no edge |
| Archivo.SinComentarios | src/main/java/mx/unam/ciencias/edd/proyecto2/Archivo.java:21-25 | a line is kept exactly when it does not start with `#` |
| Archivo.SinComentariosConcatena | src/main/java/mx/unam/ciencias/edd/proyecto2/Archivo.java:21-25 | reading one more line appends it unless it is a comment |
| Archivo.Campos | src/main/java/mx/unam/ciencias/edd/proyecto2/Archivo.java:38 | splitting at every space gives at least one field and no field holds a space |
| Archivo.UneCampos | src/main/java/mx/unam/ciencias/edd/proyecto2/Archivo.java:38 | joining the fields with spaces gives the line back |
| Archivo.CamposUne | src/main/java/mx/unam/ciencias/edd/proyecto2/Archivo.java:38 | splitting fields joined with spaces gives the fields back |
| Archivo.SinVaciasFinales | src/main/java/mx/unam/ciencias/edd/proyecto2/Archivo.java:38 | dropping trailing empty fields keeps a prefix and leaves no trailing empty field |
| Archivo.Divide | src/main/java/mx/unam/ciencias/edd/proyecto2/Archivo.java:38 | Java's `split(" ")`: the line itself when it has no space, otherwise its fields without the trailing empty ones |
| Archivo.CamposSinEspacio | src/main/java/mx/unam/ciencias/edd/proyecto2/Archivo.java:38 | a line without spaces splits into itself |
| Archivo.CamposConcatena | src/main/java/mx/unam/ciencias/edd/proyecto2/Archivo.java:38 | a field without spaces, a space and a rest split into that field followed by the split of the rest |
| Archivo.TokensConcatena | src/main/java/mx/unam/ciencias/edd/proyecto2/Archivo.java:35-44 | the tokens of two lists of lines are the tokens of the first followed by those of the second, so line order and token order are kept |
| Archivo.TokensIdempotente | src/main/java/mx/unam/ciencias/edd/proyecto2/Archivo.java:35-44 | splitting already split tokens changes nothing |
| Archivo.TokensHasta | src/main/java/mx/unam/ciencias/edd/proyecto2/Archivo.java:37-42 | one iteration of the outer loop appends the split of the next line |
| Archivo.TokensDeTokens | src/main/java/mx/unam/ciencias/edd/proyecto2/Archivo.java:35-44 | lines without spaces are their own tokens |
| Archivo.Archivo.constructor | src/main/java/mx/unam/ciencias/edd/proyecto2/Archivo.java:13 | `arch` starts empty |
| Archivo.Archivo.Organiza | src/main/java/mx/unam/ciencias/edd/proyecto2/Archivo.java:20-28 | `arch` becomes the tokens of its old content followed by the non-comment lines, and that is what is returned |
| Archivo.Archivo.OrganizaAcumula | src/main/java/mx/unam/ciencias/edd/proyecto2/Archivo.java:20-28 | a later call returns the earlier calls' tokens followed by the new file's tokens |
| Archivo.Separa | src/main/java/mx/unam/ciencias/edd/proyecto2/Archivo.java:35-44 | the loop builds the tokens of every line, in order |
| Identificador.Tipo | src/main/java/mx/unam/ciencias/edd/proyecto2/Identificador.java:21-60 | a name maps to the structure whose class name it is, and to NINGUNO exactly when no structure has that name |
| Identificador.TipoDeNombre | src/main/java/mx/unam/ciencias/edd/proyecto2/Identificador.java:21-56 | each of the nine structures has a class name that maps back to it |
| Identificador.Graficador.constructor | src/main/java/mx/unam/ciencias/edd/proyecto2/Graficador.java:23-27 | a new drawer has structure NINGUNO |
| Identificador.Graficador.DefineEstructura | src/main/java/mx/unam/ciencias/edd/proyecto2/Graficador.java:34-36 | the drawer's structure becomes the given one |
| Identificador.Identificador.constructor | src/main/java/mx/unam/ciencias/edd/proyecto2/Identificador.java:11 | holds a new drawer with structure NINGUNO |
| Identificador.Identificador.Define | src/main/java/mx/unam/ciencias/edd/proyecto2/Identificador.java:20-63 | returns the held drawer, whose structure becomes the one named (NINGUNO for any other name) |

## Left out

- Vertices are paths into a value tree, not objects. There are no `padre` links and no aliasing of `Vertice` objects, and rewiring in place is modelled as building the new tree. Parent/child link agreement holds by construction and is not stated.
- The red-black phantom leaf (a vertex with a null element) is modelled as the empty position it stands in. Attaching and detaching it are therefore the identity.
- `Comparator` and `compareTo` are a key function into `int` (a total preorder). Trees and heaps hold `int` elements or integer keys.
- Branches that end in a `NullPointerException` for a null argument are left out. Only the null checks the source makes itself are modelled.
- Graficas.Grafica.Conecta: compares the endpoints by value, while Java compares `a == b` by reference (Grafica.java:143). Two distinct but equal element objects would get a self-loop in Java, and `aristas` would grow by one. The graph invariant (`Simple`) rules such loops out.
- MonticuloMinimo.MonticuloMinimo.Agrega: requires the element not to be in the heap already. Java accepts a repeat, which then occupies two slots with one index. A null element throws `NullPointerException` in Java and is not modelled.
- MonticuloMinimo.MonticuloMinimo.Desde: requires the iterable's elements to be distinct objects, for the same reason. It also requires `0 <= n`: with a negative `n`, Java throws `NegativeArraySizeException` at `nuevoArreglo(n)` (MonticuloMinimo.java:108), which is not modelled. With `n == 0` and a non-empty iterable, Java's first `agrega` throws (the capacity defect under "## Findings"); `Desde` adds through the corrected `Agrega` and succeeds.
- MonticuloMinimo.MonticuloMinimo.Reordena: keys are immutable in the model (`Indexable.clave` is a constant), so a key change by the caller is not modelled. Instead the precondition allows the element's slot to be the only misplaced one, which is the state such a change leaves. It also requires the element to be in the heap. For an element already removed (index -1), Java's `haciaAbajo(-1)` computes the left child -1 and reads `arbol[-1]`, which throws `ArrayIndexOutOfBoundsException` (MonticuloMinimo.java:127-129); that throw is not modelled.
- MonticuloArreglo.MonticuloArreglo.constructor: requires exactly `n` distinct elements. With more, Java throws `ArrayIndexOutOfBoundsException`; with fewer, the trailing null slots make `buscaMinimo` throw `NullPointerException` later.
- Archivo.Archivo.Organiza: returns the new content as a value. Java returns the `arch` object itself, which the caller shares and the next call appends to at line 23. The accumulated content is modelled; the sharing is not.
- Listas.Lista.Contiene: takes a non-null element. Java's `buscaElemento` calls `equals` on the argument (Lista.java:234), which throws `NullPointerException` on null; that throw is not modelled. (`indiceDe` and the graph's `contiene` call `equals` on the stored element instead, so a null argument gives -1 and false, and the model states both.)
- Arreglos.BusquedaBinaria: indices are unbounded integers. The 32-bit overflow of `(a+b)/2` in Java, for arrays of more than 2^30 elements, is not modelled.
- Graficas.Grafica.Dfs: states that every reachable vertex is acted on once, start first, but not the stack order. The visit order of a stack-driven walk is left unstated (`Bfs` does state breadth-first order).
- ArbolesAVL.ArbolAVL.Agrega and ArbolesAVL.ArbolAVL.Elimina: the upward walk of `rebalancea` is a function with a step budget (`pasos`), and the lemmas prove the budget suffices. The Java recursion has no such bound.
- ArbolesAVL.ArbolAVL and ArbolesRojinegros.ArbolRojinegro do not track `ultimoAgregado`. The field is inherited and its AVL or red-black meaning after the fixups' rotations is not modelled; `ArbolBinarioOrdenado` does track it.
- ArbolesCompletos.ArbolBinarioCompleto.Altura: computes floor(log2 n) on integers, where Java uses `Math.log`/`Math.floor` on doubles. Floating-point rounding is not modelled.
- Tree `toString` (box drawing) and the vertex `toString` are not modelled; they are presentation only.
- The heaps' iterators, `equals`, `toString` and `getElementos` are not modelled.
- `Grafica.equals` and `toString`, `paraCadaVertice`, `setColor` and the `VerticeGrafica` accessors are not modelled. Equality depends on vertex object identity across graphs.
- The SVG drawing classes (`Graficador.grafica` and the figures), the command line (`Proyecto2`) and file and standard-input reading are not modelled. They are floating-point layout and I/O.
- `MeteSaca.saca`, `mira` and `esVacia` are not part of this model, since `MeteSaca.java` is not part of this model. The Java queues and stacks used inside tree and graph walks are local Dafny sequences.
- Constructors from a `Coleccion` (the trees' and the list's copy constructors) are not modelled, since `Coleccion` is not part of this model. The heap's `MonticuloMinimo(Coleccion)` is `Desde` with `n` equal to the collection's size.
- The traversals' action callbacks (`AccionVerticeArbolBinario`, `AccionVerticeGrafica`) are modelled as the returned sequence of visited vertices.

## Findings

| source | as written | input that shows it | evidently intended | confidence | as-written member | corrected member |
|---|---|---|---|---|---|---|
| src/main/java/mx/unam/ciencias/edd/MonticuloMinimo.java:182-194 | a full array grows to `arbol.length + arbol.length` slots | `new MonticuloMinimo(coleccionVacia)` builds an array of length 0; the next `agrega` grows it to length 0 and the write at line 190 throws ArrayIndexOutOfBoundsException | the array grows to at least one more slot, so `agrega` always succeeds | not executed | MonticuloMinimo.MonticuloMinimo.AgregaComoEscrito | MonticuloMinimo.MonticuloMinimo.Agrega |
| src/main/java/mx/unam/ciencias/edd/Grafica.java:256-279 | the start vertex is coloured red (line 262), and only a neighbour can turn it black | a graph with one vertex and no edge: `esConexa()` returns false | a single vertex is a connected graph | not executed | Graficas.Grafica.EsConexa | Graficas.Grafica.EsConexaCorregida |
| src/main/java/mx/unam/ciencias/edd/ArbolRojinegro.java:62-68 | `VerticeRojinegro.equals` compares the colour of the top vertex and then calls the inherited `equals`, which recurses without comparing colours (ArbolBinario.java:162-175) | black 2 with red children 1 and 3 (insert 2, 1, 3) against black 2 with black children 1 and 3 (insert 2, 1, 3, 4, then remove 4): both valid red-black trees, different, yet `equals` is true (`IgualesRNIgnoraColores`) | colours compared at every vertex, as the documentation of `equals` says; `ArbolRojinegro.Equals` follows this comparison | not executed | ArbolesRojinegros.IgualesRNComoEscrito | ArbolesRojinegros.IgualesRN |
