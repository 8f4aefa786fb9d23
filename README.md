# Data structures of `mx.unam.ciencias.edd`, modelled and verified in Dafny

This project models the core collections of the Java package
`mx.unam.ciencias.edd`: the binary tree and its vertex handles, the ordered
(binary search) tree with its rotations and in-order iterator, the AVL tree
and the red-black tree with their rebalancing, the complete binary tree,
the doubly linked list with its iterator and merge sort, and the graph with
its traversals. The elements are fixed to `int` with its natural order.

The modules follow the Java classes:

- `Comun` (`comun.dfy`): what the other modules share. It defines `Option`
  for a nullable reference, `Result`/`Outcome` for a value or a thrown
  exception, `Excepcion` for the exception classes, `Color`, and the
  sequence facts about deleting one position.
- `ArbolBinario` (`arbol_binario.dfy`): a tree is a value
  `Arbol(raiz, elementos)`. The root `raiz` is a `Vertice` datatype that
  carries a payload `dato`: nothing for plain trees, the cached height
  for AVL trees and the colour for red-black trees. A `VerticeArbolBinario`
  handle is a path `Ruta` from the root (false = left, true = right). On
  paths, `padre`, `izquierdo`, `derecho` and `profundidad` become plain
  path arithmetic.
- `ArbolBinarioOrdenado` (`arbol_ordenado.dfy`): the search-tree invariant,
  the three depth-first orders, insertion, search, deletion through the
  predecessor swap, and the rotations at a handle. The in-order iterator
  is a class over a stack of pending vertices.
- `ArbolAVL` and `ArbolRojinegro` (`arbol_avl.dfy`, `arbol_rojinegro.dfy`):
  the source walks parent pointers upwards. Here insertion and deletion
  descend recursively and apply the same rebalancing step to each vertex
  on the way back, from the vertex where the walk starts up to the root.
  Their left rotations compare vertices by identity; the source's
  `giraIzquierda` does not, and the consequence for duplicate elements is
  under "## Findings".
- `ArbolBinarioCompleto` (`arbol_completo.dfy`): a complete tree is a class
  whose field is the `seq` of its elements in BFS order. The BFS queue
  loops of `agrega`, `elimina` and `bfs` are `while` loops over positions,
  and the tree such a sequence lays out (children of `k` at `2k + 1` and
  `2k + 2`) ties it to the binary tree's `busca`.
- `Lista` (`lista.dfy`): a class with `cabeza`, `rabo` and `longitud` over
  real `Nodo` objects linked both ways. A ghost chain of nodes and a ghost
  sequence of contents specify it. All list algorithms are methods with
  loops, proved against functions on the contents: search, `get`,
  `indiceDe`, `inserta`, `elimina`, reversal, copy, equality, merge sort,
  and the linear search of a sorted list.
- `Grafica` (`grafica.dfy`): a class whose fields are the vertices in
  insertion order, a map from each vertex to its neighbour list, a map of
  colours and the edge counter. The invariant says the graph is simple
  and symmetric, and that the counter is half the sum of the degrees.
  BFS, DFS and `esConexa` run the source's colouring traversal with a
  queue or a stack, proved to visit exactly the reachable vertices.

## Model

All source paths are under `src/main/java/mx/unam/ciencias/edd/`.

| member | source | states |
|---|---|---|
| ArbolBinario.TamanoElementos | src/main/java/mx/unam/ciencias/edd/ArbolBinario.java:231-233 | the number of elements a tree holds (with multiplicity) is its number of vertices |
| ArbolBinario.Altura | src/main/java/mx/unam/ciencias/edd/ArbolBinario.java:106-116 | the height of a vertex is at least -1, and it is -1 exactly for an absent vertex |
| ArbolBinario.AlturaCotas | src/main/java/mx/unam/ciencias/edd/ArbolBinario.java:106-116 | a tree of height h has more than h and fewer than 2^(h+1) vertices |
| ArbolBinario.AlturaArbol | src/main/java/mx/unam/ciencias/edd/ArbolBinario.java:221-225 | the tree's height is -1 exactly when it is empty, and otherwise the root's height |
| ArbolBinario.Padre | src/main/java/mx/unam/ciencias/edd/ArbolBinario.java:42-44 | NoSuchElementException exactly at the root; otherwise a vertex one level up whose child on the last step is the given vertex (also ArbolBinario.java lines 71-75) |
| ArbolBinario.Izquierdo | src/main/java/mx/unam/ciencias/edd/ArbolBinario.java:51-54 | NoSuchElementException exactly when there is no left child; otherwise a handle to the left subtree whose parent is the given vertex (also ArbolBinario.java lines 82-86) |
| ArbolBinario.Derecho | src/main/java/mx/unam/ciencias/edd/ArbolBinario.java:61-64 | the mirror of `Izquierdo` for the right child (also ArbolBinario.java lines 93-97) |
| ArbolBinario.Profundidad | src/main/java/mx/unam/ciencias/edd/ArbolBinario.java:122-126 | the depth counted through the parents is the length of the path from the root |
| ArbolBinario.AlturaAcotaProfundidad | src/main/java/mx/unam/ciencias/edd/ArbolBinario.java:106-126 | no vertex is deeper than the height of the tree it hangs in |
| ArbolBinario.VerticeDe | src/main/java/mx/unam/ciencias/edd/ArbolBinario.java:388-392 | a null handle gives ClassCastException; any other handle is returned as it is |
| ArbolBinario.Raiz | src/main/java/mx/unam/ciencias/edd/ArbolBinario.java:284-287 | NoSuchElementException exactly on an empty tree; otherwise the root handle, which is a vertex |
| ArbolBinario.Limpia | src/main/java/mx/unam/ciencias/edd/ArbolBinario.java:301-304 | afterwards the tree is empty, holds no element, has count 0 and `raiz()` throws |
| ArbolBinario.BuscaEn | src/main/java/mx/unam/ciencias/edd/ArbolBinario.java:259-276 | a found handle leads to a vertex holding the element; nothing is found exactly when the element is absent |
| ArbolBinario.Busca | src/main/java/mx/unam/ciencias/edd/ArbolBinario.java:252-257 | null for an empty tree or a null query; otherwise found exactly when present, at a vertex holding it |
| ArbolBinario.Contiene | src/main/java/mx/unam/ciencias/edd/ArbolBinario.java:241-243 | with the tree-level pre-order `busca` (the complete tree's): true exactly for a non-null element that occurs in the tree; the ordered trees override `busca`, and their `contiene` is `ArbolBinarioOrdenado.Contiene` |
| ArbolBinario.NuloSinVertices | src/main/java/mx/unam/ciencias/edd/ArbolBinario.java:82-97 | every path below a missing child leads nowhere |
| ArbolBinario.SubarbolPaso | src/main/java/mx/unam/ciencias/edd/ArbolBinario.java:82-97 | one more step down a handle's path reaches the corresponding child |
| ArbolBinario.PrefijoEsVertice | src/main/java/mx/unam/ciencias/edd/ArbolBinario.java:71-75 | every ancestor of a vertex, reached through `padre`, is a vertex |
| ArbolBinario.SubarbolReemplazado | src/main/java/mx/unam/ciencias/edd/ArbolBinarioOrdenado.java:185-202 | relinking the subtree at a vertex puts the new subtree exactly at that vertex's handle |
| ArbolBinario.ReemplazoFuera | src/main/java/mx/unam/ciencias/edd/ArbolBinarioOrdenado.java:185-202 | relinking at one vertex leaves every subtree at a path neither above nor below it as it was |
| ArbolBinario.ReemplazoEncima | src/main/java/mx/unam/ciencias/edd/ArbolBinarioOrdenado.java:185-202 | relinking at one vertex keeps the element and payload of every vertex on the way down to it |
| ArbolBinario.ReemplazoSoloCambiaEn | src/main/java/mx/unam/ciencias/edd/ArbolBinarioOrdenado.java:185-202 | relinking at a vertex changes the tree only inside that vertex's subtree |
| ArbolBinario.FormaTamano | src/main/java/mx/unam/ciencias/edd/ArbolBinario.java:149-171 | forgetting the payloads keeps the number of vertices |
| ArbolBinario.IgualesSiiMismaForma | src/main/java/mx/unam/ciencias/edd/ArbolBinario.java:149-171 | vertex `equals` holds exactly when both subtrees have the same shape and the same element at every vertex |
| ArbolBinario.IgualesArbolSiiMismaForma | src/main/java/mx/unam/ciencias/edd/ArbolBinario.java:312-321 | for correctly counted trees, tree `equals` holds exactly when both trees have the same shape and elements |
| ArbolBinarioOrdenado.RecorridosCompletos | src/main/java/mx/unam/ciencias/edd/ArbolBinarioOrdenado.java:300-345 | each of the three DFS orders visits every element of the tree exactly as often as it occurs |
| ArbolBinarioOrdenado.Dfs | src/main/java/mx/unam/ciencias/edd/ArbolBinarioOrdenado.java:300-345 | `dfsPreOrder`, `dfsInOrder` and `dfsPostOrder`: NullPointerException exactly for a null action on a non-empty tree; otherwise the action sees every element once with its multiplicity, nothing on an empty tree, the in-order sequence sorted exactly when the tree is ordered, the root first in pre-order and last in post-order |
| ArbolBinarioOrdenado.EnOrdenCompleto | src/main/java/mx/unam/ciencias/edd/ArbolBinarioOrdenado.java:318-328 | `dfsInOrder` visits the tree's elements with their multiplicities |
| ArbolBinarioOrdenado.PreOrdenCompleto | src/main/java/mx/unam/ciencias/edd/ArbolBinarioOrdenado.java:300-310 | `dfsPreOrder` visits the tree's elements with their multiplicities |
| ArbolBinarioOrdenado.PostOrdenCompleto | src/main/java/mx/unam/ciencias/edd/ArbolBinarioOrdenado.java:335-345 | `dfsPostOrder` visits the tree's elements with their multiplicities |
| ArbolBinarioOrdenado.RecorridosLongitud | src/main/java/mx/unam/ciencias/edd/ArbolBinarioOrdenado.java:300-345 | each order makes one visit per vertex; pre-order starts and post-order ends at the root |
| ArbolBinarioOrdenado.ABBSiiEnOrdenOrdenado | src/main/java/mx/unam/ciencias/edd/ArbolBinarioOrdenado.java:318-328 | the search-tree invariant holds exactly when the in-order sequence is non-decreasing |
| ArbolBinarioOrdenado.Inserta | src/main/java/mx/unam/ciencias/edd/ArbolBinarioOrdenado.java:108-125 | the descent adds exactly one vertex holding the element and keeps the search-tree invariant |
| ArbolBinarioOrdenado.RutaNueva | src/main/java/mx/unam/ciencias/edd/ArbolBinarioOrdenado.java:108-125 | the path of the descent leads to the new leaf holding the element |
| ArbolBinarioOrdenado.Agrega | src/main/java/mx/unam/ciencias/edd/ArbolBinarioOrdenado.java:92-106 | null gives IllegalArgumentException; otherwise the count rises by one, the element is added, count and order are kept, and `getUltimoVerticeAgregado` is a leaf holding the element (also ArbolBinarioOrdenado.java lines 235-237) |
| ArbolBinarioOrdenado.BuscaABB | src/main/java/mx/unam/ciencias/edd/ArbolBinarioOrdenado.java:217-223 | a found vertex holds the element; on an ordered tree it fails exactly when the element is absent |
| ArbolBinarioOrdenado.Busca | src/main/java/mx/unam/ciencias/edd/ArbolBinarioOrdenado.java:211-215 | NullPointerException exactly for a null query on a non-empty tree; otherwise the search, exact on an ordered tree |
| ArbolBinarioOrdenado.Contiene | src/main/java/mx/unam/ciencias/edd/ArbolBinario.java:241-243 | `contiene` on an ordered, AVL or red-black tree, through the overriding `busca` (also ArbolBinarioOrdenado.java lines 211-220): NullPointerException exactly for null on a non-empty tree, false for null on an empty one, and on an ordered tree true exactly when the element occurs |
| ArbolBinarioOrdenado.EnOrdenReemplazo | src/main/java/mx/unam/ciencias/edd/ArbolBinarioOrdenado.java:185-202 | relinking the subtree at a vertex replaces exactly that subtree's stretch of the in-order sequence |
| ArbolBinarioOrdenado.EnOrdenReemplazado | src/main/java/mx/unam/ciencias/edd/ArbolBinarioOrdenado.java:185-202 | the in-order sequence after a relinking is the part before, the new subtree, and the part after |
| ArbolBinarioOrdenado.SubarbolCompuesto | src/main/java/mx/unam/ciencias/edd/ArbolBinarioOrdenado.java:152-177 | following a path and then another one is following both joined |
| ArbolBinarioOrdenado.ReemplazoCompuesto | src/main/java/mx/unam/ciencias/edd/ArbolBinarioOrdenado.java:168-202 | relinking deep below a vertex is relinking the vertex's subtree in turn |
| ArbolBinarioOrdenado.ReemplazoDoble | src/main/java/mx/unam/ciencias/edd/ArbolBinarioOrdenado.java:168-202 | the second of two relinkings at the same place wins |
| ArbolBinarioOrdenado.ReemplazoMismo | src/main/java/mx/unam/ciencias/edd/ArbolBinarioOrdenado.java:168-202 | relinking a subtree to itself changes nothing |
| ArbolBinarioOrdenado.MaximoEnSubarbol | src/main/java/mx/unam/ciencias/edd/ArbolBinarioOrdenado.java:152-157 | the rightmost descent ends at a vertex without a right child, last in in-order, holding the maximum of an ordered subtree |
| ArbolBinarioOrdenado.IntercambiaEliminable | src/main/java/mx/unam/ciencias/edd/ArbolBinarioOrdenado.java:168-177 | the vertex takes the element of its left subtree's maximum, and the returned vertex has no right child and holds the old element |
| ArbolBinarioOrdenado.EliminaVertice | src/main/java/mx/unam/ciencias/edd/ArbolBinarioOrdenado.java:185-202 | the only child (or nothing) takes the spliced vertex's place |
| ArbolBinarioOrdenado.SinRaizEnOrden | src/main/java/mx/unam/ciencias/edd/ArbolBinarioOrdenado.java:185-202 | splicing a vertex out removes exactly its element from the in-order sequence, at its position |
| ArbolBinarioOrdenado.MaximoEnOrden | src/main/java/mx/unam/ciencias/edd/ArbolBinarioOrdenado.java:152-157 | splicing out the maximum of a subtree takes off the last in-order element |
| ArbolBinarioOrdenado.IntercambioEstructura | src/main/java/mx/unam/ciencias/edd/ArbolBinarioOrdenado.java:143-146 | swap then splice equals moving the left maximum up and splicing it out below |
| ArbolBinarioOrdenado.EliminaEnEnOrden | src/main/java/mx/unam/ciencias/edd/ArbolBinarioOrdenado.java:143-146 | deleting the vertex at a handle removes exactly one in-order position, one that holds its element |
| ArbolBinarioOrdenado.DosHijosEnOrden | src/main/java/mx/unam/ciencias/edd/ArbolBinarioOrdenado.java:143-144 | the same for a vertex with two children, through the predecessor swap |
| ArbolBinarioOrdenado.EliminaCorrecto | src/main/java/mx/unam/ciencias/edd/ArbolBinarioOrdenado.java:133-150 | null or an absent element changes nothing; otherwise the count drops by one, one copy of the element goes, and one in-order position holding it is removed; order and count are kept |
| ArbolBinarioOrdenado.RotaDerecha | src/main/java/mx/unam/ciencias/edd/ArbolBinarioOrdenado.java:244-266 | the left child moves up, the old root becomes its right child and adopts its right subtree; the in-order sequence is kept; without a left child nothing changes |
| ArbolBinarioOrdenado.RotaIzquierda | src/main/java/mx/unam/ciencias/edd/ArbolBinarioOrdenado.java:273-293 | the mirror of `RotaDerecha` |
| ArbolBinarioOrdenado.RotacionesConservan | src/main/java/mx/unam/ciencias/edd/ArbolBinarioOrdenado.java:244-293 | rotations keep the elements and the number of vertices |
| ArbolBinarioOrdenado.GiraDerecha | src/main/java/mx/unam/ciencias/edd/ArbolBinarioOrdenado.java:244-266 | with a null handle or without a left child the tree is unchanged; otherwise the subtree at the handle is rotated right, count and in-order sequence are kept, and the tree changes only inside that subtree: every other subtree stays, and the vertices above keep their elements |
| ArbolBinarioOrdenado.GiraIzquierda | src/main/java/mx/unam/ciencias/edd/ArbolBinarioOrdenado.java:273-293 | corrected `giraIzquierda` (parent side chosen by identity): with a null handle or without a right child nothing changes; otherwise the subtree at the handle is rotated left, count and in-order sequence are kept, and the tree changes only inside that subtree |
| ArbolBinarioOrdenado.GiraIzquierdaEscrita | src/main/java/mx/unam/ciencias/edd/ArbolBinarioOrdenado.java:273-293 | `giraIzquierda` as written, with the parent's side decided by `equals` on the elements: the vertex counter is left as it is even when the relinking loses vertices, and without a right child nothing changes |
| ArbolBinarioOrdenado.GiraIzquierdaEscritaSinEmpates | src/main/java/mx/unam/ciencias/edd/ArbolBinarioOrdenado.java:281 | unless the left sibling holds an equal element, `giraIzquierda` as written is the corrected rotation |
| ArbolBinarioOrdenado.GiraIzquierdaEscritaRompeOrden | src/main/java/mx/unam/ciencias/edd/ArbolBinarioOrdenado.java:281 | a concrete ordered tree that `giraIzquierda` as written leaves unordered, and that the corrected rotation does not |
| ArbolBinarioOrdenado.GiraNoSoportada | src/main/java/mx/unam/ciencias/edd/ArbolAVL.java:213-230 | the public rotations of the AVL and red-black trees always throw UnsupportedOperationException (also ArbolRojinegro.java lines 297-314) |
| ArbolBinarioOrdenado.PendienteMete | src/main/java/mx/unam/ciencias/edd/ArbolBinarioOrdenado.java:31-34 | pushing a vertex on the iterator's stack leaves its left subtree and then itself pending |
| ArbolBinarioOrdenado.Iterador.MeteEspina | src/main/java/mx/unam/ciencias/edd/ArbolBinarioOrdenado.java:29-34 | pushing a left spine puts the whole subtree's in-order sequence first in what is pending (also ArbolBinarioOrdenado.java lines 51-56) |
| ArbolBinarioOrdenado.Iterador.constructor | src/main/java/mx/unam/ciencias/edd/ArbolBinarioOrdenado.java:27-36 | a new iterator has the whole in-order sequence pending |
| ArbolBinarioOrdenado.Iterador.HayMas | src/main/java/mx/unam/ciencias/edd/ArbolBinarioOrdenado.java:39-41 | true exactly when something is pending |
| ArbolBinarioOrdenado.Iterador.Siguiente | src/main/java/mx/unam/ciencias/edd/ArbolBinarioOrdenado.java:44-60 | returns the first pending element and takes it off what is pending |
| ArbolBinarioOrdenado.RecorreConIterador | src/main/java/mx/unam/ciencias/edd/ArbolBinarioOrdenado.java:27-60 | draining the iterator yields `dfsInOrder`'s sequence, sorted on an ordered tree |
| ArbolAVL.AlturaVertice | src/main/java/mx/unam/ciencias/edd/ArbolAVL.java:187-195 | when both subtrees cache their heights correctly, the recomputed height is the vertex's real height, whatever its own cache holds |
| ArbolAVL.CacheCorrecta | src/main/java/mx/unam/ciencias/edd/ArbolAVL.java:32-34 | in an AVL tree, `altura()` of a vertex (its cached height) is its real height |
| ArbolAVL.PreparaDerecho | src/main/java/mx/unam/ciencias/edd/ArbolAVL.java:141-149 | the preparatory right rotation of the double case has the shape of a right rotation and keeps the in-order sequence |
| ArbolAVL.PreparaIzquierdo | src/main/java/mx/unam/ciencias/edd/ArbolAVL.java:164-172 | the preparatory left rotation of the double case has the shape of a left rotation and keeps the in-order sequence |
| ArbolAVL.AjusteIzquierdo | src/main/java/mx/unam/ciencias/edd/ArbolAVL.java:136-158 | the `balance == -2` branch keeps the in-order sequence |
| ArbolAVL.AjusteDerecho | src/main/java/mx/unam/ciencias/edd/ArbolAVL.java:160-181 | the `balance == 2` branch keeps the in-order sequence |
| ArbolAVL.Paso | src/main/java/mx/unam/ciencias/edd/ArbolAVL.java:122-184 | one visit of `rebalanceo` keeps the in-order sequence |
| ArbolAVL.Repara | src/main/java/mx/unam/ciencias/edd/ArbolAVL.java:122-184 | the visits at one position of the walk keep the in-order sequence |
| ArbolAVL.PasoSobreAVL | src/main/java/mx/unam/ciencias/edd/ArbolAVL.java:122-134 | at a balanced vertex with correct cached heights the step neither rotates nor changes anything |
| ArbolAVL.GiroDobleAVL | src/main/java/mx/unam/ciencias/edd/ArbolAVL.java:152-156 | the heights the double rotation assigns make an AVL tree of height H - 1 (also ArbolAVL.java lines 175-179) |
| ArbolAVL.AjusteIzquierdoCorrecto | src/main/java/mx/unam/ciencias/edd/ArbolAVL.java:136-158 | a vertex whose right side is two taller becomes an AVL tree of height H or H - 1 with correct cached heights |
| ArbolAVL.AjusteIzquierdoDobleForma | src/main/java/mx/unam/ciencias/edd/ArbolAVL.java:141-156 | the tree and heights the double rotation of the -2 branch builds |
| ArbolAVL.AjusteIzquierdoSimpleForma | src/main/java/mx/unam/ciencias/edd/ArbolAVL.java:152-156 | the tree and heights the single rotation of the -2 branch builds |
| ArbolAVL.AjusteIzquierdoDoble | src/main/java/mx/unam/ciencias/edd/ArbolAVL.java:141-156 | the double-rotation result is AVL with height H - 1 |
| ArbolAVL.AjusteIzquierdoSimple | src/main/java/mx/unam/ciencias/edd/ArbolAVL.java:152-156 | the single-rotation result is AVL with height H or H - 1 |
| ArbolAVL.AjusteDerechoCorrecto | src/main/java/mx/unam/ciencias/edd/ArbolAVL.java:160-181 | the mirror of `AjusteIzquierdoCorrecto` for a left side two taller |
| ArbolAVL.AjusteDerechoDobleForma | src/main/java/mx/unam/ciencias/edd/ArbolAVL.java:164-179 | the tree and heights the double rotation of the +2 branch builds |
| ArbolAVL.AjusteDerechoSimpleForma | src/main/java/mx/unam/ciencias/edd/ArbolAVL.java:175-179 | the tree and heights the single rotation of the +2 branch builds |
| ArbolAVL.AjusteDerechoDoble | src/main/java/mx/unam/ciencias/edd/ArbolAVL.java:164-179 | the mirror of `AjusteIzquierdoDoble` |
| ArbolAVL.AjusteDerechoSimple | src/main/java/mx/unam/ciencias/edd/ArbolAVL.java:175-179 | the mirror of `AjusteIzquierdoSimple` |
| ArbolAVL.ReparaCorrecto | src/main/java/mx/unam/ciencias/edd/ArbolAVL.java:122-184 | over AVL children differing by at most 2 in height the repair gives an AVL tree, keeps the in-order sequence, and grows by at most one; a second visit after a rotation changes nothing |
| ArbolAVL.InsertaAVLEnOrden | src/main/java/mx/unam/ciencias/edd/ArbolAVL.java:98-101 | the in-order sequence after insertion is the ordered tree's, as before the rotations |
| ArbolAVL.InsertaAVLForma | src/main/java/mx/unam/ciencias/edd/ArbolAVL.java:98-101 | insertion into an AVL tree gives an AVL tree, at most one level taller |
| ArbolAVL.Agrega | src/main/java/mx/unam/ciencias/edd/ArbolAVL.java:98-101 | null gives IllegalArgumentException; otherwise the count rises by one |
| ArbolAVL.AgregaCorrecto | src/main/java/mx/unam/ciencias/edd/ArbolAVL.java:98-101 | adding keeps order, balance, cached heights and count, and adds exactly the element, with the same in-order sequence as the plain ordered-tree insertion |
| ArbolAVL.EliminaMaximoAVL | src/main/java/mx/unam/ciencias/edd/ArbolAVL.java:108-120 | splicing out a subtree's maximum returns the last in-order element and keeps the rest |
| ArbolAVL.EliminaMaximoAVLForma | src/main/java/mx/unam/ciencias/edd/ArbolAVL.java:108-120 | splicing out the maximum of an AVL subtree, with repair, gives an AVL subtree at most one level lower |
| ArbolAVL.EliminaAVLForma | src/main/java/mx/unam/ciencias/edd/ArbolAVL.java:108-120 | deletion from an AVL tree gives an AVL tree at most one level lower |
| ArbolAVL.RepararTrasBajar | src/main/java/mx/unam/ciencias/edd/ArbolAVL.java:119 | repairing over a child at most one level lower gives an AVL tree whose height is between the old height and one more |
| ArbolAVL.EliminaAVLEnOrden | src/main/java/mx/unam/ciencias/edd/ArbolAVL.java:108-120 | on an ordered tree holding the element, deletion removes one in-order position holding it |
| ArbolAVL.EncontradoEnOrden | src/main/java/mx/unam/ciencias/edd/ArbolAVL.java:113-119 | deleting at the vertex where the search stops removes one in-order position holding its element |
| ArbolAVL.BajaIzquierdaEnOrden | src/main/java/mx/unam/ciencias/edd/ArbolAVL.java:110 | removal in the left subtree is removal in the whole in-order sequence |
| ArbolAVL.BajaDerechaEnOrden | src/main/java/mx/unam/ciencias/edd/ArbolAVL.java:110 | removal in the right subtree is removal in the whole in-order sequence |
| ArbolAVL.EliminaAVLIzquierda | src/main/java/mx/unam/ciencias/edd/ArbolAVL.java:110-119 | an element below the vertex's is deleted on the left, and the rest of the in-order sequence stays |
| ArbolAVL.EliminaAVLIzquierdaForma | src/main/java/mx/unam/ciencias/edd/ArbolAVL.java:110-119 | that deletion is the left deletion followed by the repair of the vertex |
| ArbolAVL.EliminaAVLDerecha | src/main/java/mx/unam/ciencias/edd/ArbolAVL.java:110-119 | an element above the vertex's is deleted on the right, and the rest of the in-order sequence stays |
| ArbolAVL.EliminaAVLDerechaForma | src/main/java/mx/unam/ciencias/edd/ArbolAVL.java:110-119 | that deletion is the right deletion followed by the repair of the vertex |
| ArbolAVL.EnOrdenRepara | src/main/java/mx/unam/ciencias/edd/ArbolAVL.java:122-184 | repairing a vertex keeps the in-order sequence of its parts |
| ArbolAVL.Elimina | src/main/java/mx/unam/ciencias/edd/ArbolAVL.java:108-120 | NullPointerException (from the search) exactly for null on a non-empty tree |
| ArbolAVL.EliminaCorrecto | src/main/java/mx/unam/ciencias/edd/ArbolAVL.java:108-120 | deletion keeps the invariant and the count and removes one copy; an absent element leaves the tree as it is; a present one leaves its in-order position |
| ArbolAVL.MinimoAVLCreciente | src/main/java/mx/unam/ciencias/edd/ArbolAVL.java:122-184 | the least size of an AVL tree grows with its height |
| ArbolAVL.MinimoAVLCota | src/main/java/mx/unam/ciencias/edd/ArbolAVL.java:122-184 | the least size of an AVL tree of height h is at least 2^((h+1)/2) - 1 |
| ArbolAVL.AlturaLogaritmica | src/main/java/mx/unam/ciencias/edd/ArbolAVL.java:122-184 | an AVL tree of height h has at least 2^((h+1)/2) - 1 vertices, so its height is logarithmic in its size |
| ArbolAVL.MinimoVertices | src/main/java/mx/unam/ciencias/edd/ArbolAVL.java:122-184 | an AVL tree has at least the least size of its height |
| ArbolAVL.MinimoPaso | src/main/java/mx/unam/ciencias/edd/ArbolAVL.java:122-184 | the least size at a vertex from balanced children |
| ArbolAVL.IgualesVertice | src/main/java/mx/unam/ciencias/edd/ArbolAVL.java:59-65 | AVL vertex `equals` holds exactly for equal cached heights and the same shape and elements |
| ArbolAVL.CincoInserciones | src/main/java/mx/unam/ciencias/edd/ArbolAVL.java:98-101 | `agrega` of 5, 5, 5, 5, 6 builds the tree 5(5(5, -), 5(-, 6)) with its heights, as the source does (only right rotations occur) |
| ArbolAVL.CincoInsercionesValido | src/main/java/mx/unam/ciencias/edd/ArbolAVL.java:98-101 | that tree is ordered and balanced with correct heights |
| ArbolAVL.RotacionEscritaAVL | src/main/java/mx/unam/ciencias/edd/ArbolAVL.java:150 | after 7 is added the walk meets balance -2 with a right child of balance -1, and `giraIzquierda` as written there yields in-order 5 6 7 5 5: unordered, two vertices lost |
| ArbolAVL.SextaInsercionABB | src/main/java/mx/unam/ciencias/edd/ArbolAVL.java:99 | the ordered-tree insertion of 7 into that tree has in-order 5 5 5 5 6 7 |
| ArbolAVL.SextaInsercionAVL | src/main/java/mx/unam/ciencias/edd/ArbolAVL.java:98-101 | the model's `agrega` of 7 there gives a valid, counted AVL tree with in-order 5 5 5 5 6 7 |
| ArbolRojinegro.AlturaNegraCamino | src/main/java/mx/unam/ciencias/edd/ArbolRojinegro.java:124-173 | in a red-black tree no subtree has a greater black height than the whole tree |
| ArbolRojinegro.AlturaAcotada | src/main/java/mx/unam/ciencias/edd/ArbolRojinegro.java:124-173 | the height is at most about twice the black height, and the size at least 2^black height - 1, so the height is logarithmic |
| ArbolRojinegro.BalanceaIzquierdo | src/main/java/mx/unam/ciencias/edd/ArbolRojinegro.java:134-171 | the `balanceoAgrega` step at a grandparent, coming up its left side, keeps the in-order sequence |
| ArbolRojinegro.BalanceaDerecho | src/main/java/mx/unam/ciencias/edd/ArbolRojinegro.java:134-171 | the mirror step, coming up the right side, keeps the in-order sequence |
| ArbolRojinegro.Ennegrece | src/main/java/mx/unam/ciencias/edd/ArbolRojinegro.java:128-131 | the root step leaves a non-red vertex and keeps the in-order sequence |
| ArbolRojinegro.Agrega | src/main/java/mx/unam/ciencias/edd/ArbolRojinegro.java:118-122 | null gives IllegalArgumentException; otherwise the count rises by one and the root is black |
| ArbolRojinegro.BalanceaIzquierdoCorrecto | src/main/java/mx/unam/ciencias/edd/ArbolRojinegro.java:134-171 | over a black grandparent whose left side may have a red-red at its top (red uncle, crossed or straight), the step gives a red-black tree with black height + 1 |
| ArbolRojinegro.BalanceaDerechoCorrecto | src/main/java/mx/unam/ciencias/edd/ArbolRojinegro.java:134-171 | the mirror of `BalanceaIzquierdoCorrecto` |
| ArbolRojinegro.InsertaRNForma | src/main/java/mx/unam/ciencias/edd/ArbolRojinegro.java:118-173 | insertion keeps the black height; below a black vertex it gives a red-black tree, below a red one at most a red-red at the top |
| ArbolRojinegro.InsertaRNEnOrden | src/main/java/mx/unam/ciencias/edd/ArbolRojinegro.java:118-173 | the in-order sequence after insertion is the ordered tree's |
| ArbolRojinegro.AgregaCorrecto | src/main/java/mx/unam/ciencias/edd/ArbolRojinegro.java:118-173 | adding keeps order, the red-black properties, the black root and the count, and adds exactly the element, with the same in-order sequence as the plain ordered-tree insertion |
| ArbolRojinegro.ResuelveIzquierdo | src/main/java/mx/unam/ciencias/edd/ArbolRojinegro.java:252-287 | cases 3 to 6 for a short left child keep the in-order sequence |
| ArbolRojinegro.ResuelveDerecho | src/main/java/mx/unam/ciencias/edd/ArbolRojinegro.java:252-287 | the mirror cases for a short right child keep the in-order sequence |
| ArbolRojinegro.BalanceoEliminaIzquierdo | src/main/java/mx/unam/ciencias/edd/ArbolRojinegro.java:222-288 | `balanceoElimina` at the parent of a short left child keeps the in-order sequence |
| ArbolRojinegro.BalanceoEliminaDerecho | src/main/java/mx/unam/ciencias/edd/ArbolRojinegro.java:222-288 | the mirror for a short right child keeps the in-order sequence |
| ArbolRojinegro.Extrae | src/main/java/mx/unam/ciencias/edd/ArbolRojinegro.java:191-206 | splicing out a vertex with at most one child leaves the in-order sequence of its children |
| ArbolRojinegro.TrasIzquierdo | src/main/java/mx/unam/ciencias/edd/ArbolRojinegro.java:209 | resolving a shortage from the left keeps the in-order sequence |
| ArbolRojinegro.TrasDerecho | src/main/java/mx/unam/ciencias/edd/ArbolRojinegro.java:209 | resolving a shortage from the right keeps the in-order sequence |
| ArbolRojinegro.EliminaMaximoRN | src/main/java/mx/unam/ciencias/edd/ArbolRojinegro.java:181-220 | splicing out a subtree's maximum returns the last in-order element and keeps the rest |
| ArbolRojinegro.Elimina | src/main/java/mx/unam/ciencias/edd/ArbolRojinegro.java:181-220 | null changes nothing; ClassCastException exactly when the search finds nothing |
| ArbolRojinegro.ResuelveIzquierdoCorrecto | src/main/java/mx/unam/ciencias/edd/ArbolRojinegro.java:252-287 | cases 3 to 6 give a red-black subtree, still short exactly when case 3 passes the shortage up, red only where the parent was |
| ArbolRojinegro.ResuelveDerechoCorrecto | src/main/java/mx/unam/ciencias/edd/ArbolRojinegro.java:252-287 | the mirror of `ResuelveIzquierdoCorrecto` |
| ArbolRojinegro.BalanceoEliminaIzquierdoCorrecto | src/main/java/mx/unam/ciencias/edd/ArbolRojinegro.java:222-288 | with case 2 first, the same for any sibling colour |
| ArbolRojinegro.BalanceoEliminaDerechoCorrecto | src/main/java/mx/unam/ciencias/edd/ArbolRojinegro.java:222-288 | the mirror of `BalanceoEliminaIzquierdoCorrecto` |
| ArbolRojinegro.TrasIzquierdoCorrecto | src/main/java/mx/unam/ciencias/edd/ArbolRojinegro.java:209 | a subtree rebuilt over a reduced left child is itself reduced |
| ArbolRojinegro.TrasDerechoCorrecto | src/main/java/mx/unam/ciencias/edd/ArbolRojinegro.java:209 | a subtree rebuilt over a reduced right child is itself reduced |
| ArbolRojinegro.ExtraeCorrecto | src/main/java/mx/unam/ciencias/edd/ArbolRojinegro.java:191-206 | the splice gives a red-black subtree one black short exactly when it reports a shortage |
| ArbolRojinegro.EliminaMaximoRNForma | src/main/java/mx/unam/ciencias/edd/ArbolRojinegro.java:181-220 | splicing out the maximum, with the fix-ups, gives a reduced subtree |
| ArbolRojinegro.EliminaRNForma | src/main/java/mx/unam/ciencias/edd/ArbolRojinegro.java:181-288 | deletion gives a red-black subtree whose black height is lower by one exactly when it reports a shortage |
| ArbolRojinegro.EliminaRNEnOrden | src/main/java/mx/unam/ciencias/edd/ArbolRojinegro.java:181-220 | on an ordered tree holding the element, deletion removes one in-order position holding it |
| ArbolRojinegro.EncontradoEnOrden | src/main/java/mx/unam/ciencias/edd/ArbolRojinegro.java:188-209 | deleting at the vertex where the search stops removes one in-order position holding its element |
| ArbolRojinegro.BajaIzquierdaEnOrden | src/main/java/mx/unam/ciencias/edd/ArbolRojinegro.java:184 | removal in the left subtree is removal in the whole in-order sequence |
| ArbolRojinegro.BajaDerechaEnOrden | src/main/java/mx/unam/ciencias/edd/ArbolRojinegro.java:184 | removal in the right subtree is removal in the whole in-order sequence |
| ArbolRojinegro.EliminaRNIzquierda | src/main/java/mx/unam/ciencias/edd/ArbolRojinegro.java:181-220 | an element below the vertex's is deleted on the left, and the rest of the in-order sequence stays |
| ArbolRojinegro.EliminaRNIzquierdaForma | src/main/java/mx/unam/ciencias/edd/ArbolRojinegro.java:181-220 | that deletion is the left deletion followed by the shortage repair |
| ArbolRojinegro.EliminaRNDerecha | src/main/java/mx/unam/ciencias/edd/ArbolRojinegro.java:181-220 | an element above the vertex's is deleted on the right, and the rest of the in-order sequence stays |
| ArbolRojinegro.EliminaRNDerechaForma | src/main/java/mx/unam/ciencias/edd/ArbolRojinegro.java:181-220 | that deletion is the right deletion followed by the shortage repair |
| ArbolRojinegro.EnOrdenTrasIzquierdo | src/main/java/mx/unam/ciencias/edd/ArbolRojinegro.java:209 | the repairs after a left deletion keep the in-order sequence of the parts |
| ArbolRojinegro.EnOrdenTrasDerecho | src/main/java/mx/unam/ciencias/edd/ArbolRojinegro.java:209 | the repairs after a right deletion keep the in-order sequence of the parts |
| ArbolRojinegro.EliminaCorrecto | src/main/java/mx/unam/ciencias/edd/ArbolRojinegro.java:181-220 | throws exactly for an absent element; otherwise keeps order, red-black properties, black root and count, and removes one in-order position holding it |
| ArbolRojinegro.GetColor | src/main/java/mx/unam/ciencias/edd/ArbolRojinegro.java:103-106 | a null handle gives ClassCastException; otherwise red exactly for a red vertex |
| ArbolRojinegro.IgualesVertice | src/main/java/mx/unam/ciencias/edd/ArbolRojinegro.java:58-65 | red-black vertex `equals` holds exactly for equal colours and the same shape and elements |
| ArbolRojinegro.CuatroInsercionesRN | src/main/java/mx/unam/ciencias/edd/ArbolRojinegro.java:118-122 | `agrega` of 5, 5, 5, 6 builds 5(5, 5(-, 6)) with only 6 red, as the source does |
| ArbolRojinegro.CuatroInsercionesValido | src/main/java/mx/unam/ciencias/edd/ArbolRojinegro.java:118-122 | that tree is a valid red-black tree |
| ArbolRojinegro.RotacionEscritaRN | src/main/java/mx/unam/ciencias/edd/ArbolRojinegro.java:171 | after 7 is added the last insertion case rotates the root's right child left, and `giraIzquierda` as written there yields in-order 5 6 7 5 5: unordered, a vertex lost |
| ArbolRojinegro.QuintaInsercionABB | src/main/java/mx/unam/ciencias/edd/ArbolRojinegro.java:119 | the ordered-tree insertion of 7 into that tree has in-order 5 5 5 6 7 |
| ArbolRojinegro.QuintaInsercionRN | src/main/java/mx/unam/ciencias/edd/ArbolRojinegro.java:118-122 | the model's `agrega` of 7 there gives a valid, counted red-black tree with in-order 5 5 5 6 7 |
| ArbolBinarioCompleto.ColaAvanza | src/main/java/mx/unam/ciencias/edd/ArbolBinarioCompleto.java:85-104 | taking a vertex off the BFS queue and adding its existing children gives the queue that starts at the next position |
| ArbolBinarioCompleto.IndiceCrece | src/main/java/mx/unam/ciencias/edd/ArbolBinarioCompleto.java:85-104 | walking down never decreases the position |
| ArbolBinarioCompleto.PosicionesCompletas | src/main/java/mx/unam/ciencias/edd/ArbolBinarioCompleto.java:85-104 | in the tree the BFS sequence lays out, a path is a vertex exactly when its position is below the size, and leads to that position's subtree |
| ArbolBinarioCompleto.PosicionesPorNivel | src/main/java/mx/unam/ciencias/edd/ArbolBinarioCompleto.java:85-104 | the vertices at depth d sit at positions 2^d - 1 to 2^(d+1) - 2, so the tree is complete |
| ArbolBinarioCompleto.DerechoTrasIzquierdo | src/main/java/mx/unam/ciencias/edd/ArbolBinarioCompleto.java:85-104 | within a level the right child's position follows the left one's |
| ArbolBinarioCompleto.BuscaIndice | src/main/java/mx/unam/ciencias/edd/ArbolBinarioCompleto.java:117 | a found position lies in the tree and holds the element |
| ArbolBinarioCompleto.BuscaIndiceEsBusca | src/main/java/mx/unam/ciencias/edd/ArbolBinario.java:259-276 | it finds exactly what the binary tree's pre-order `busca` finds, at the position of that handle |
| ArbolBinarioCompleto.CombinaBusquedas | src/main/java/mx/unam/ciencias/edd/ArbolBinario.java:259-276 | the left-then-right combination of subtree results agrees for handles and positions |
| ArbolBinarioCompleto.BuscaEnHijos | src/main/java/mx/unam/ciencias/edd/ArbolBinario.java:259-276 | at a vertex without the element, `busca` looks left, then right |
| ArbolBinarioCompleto.BuscaIndiceHijos | src/main/java/mx/unam/ciencias/edd/ArbolBinario.java:259-276 | the same on positions |
| ArbolBinarioCompleto.IndiceDesdeHijo | src/main/java/mx/unam/ciencias/edd/ArbolBinarioCompleto.java:85-104 | a path starting with a step down gives the position from that child |
| ArbolBinarioCompleto.TodoBajoRaiz | src/main/java/mx/unam/ciencias/edd/ArbolBinarioCompleto.java:85-104 | every position is below the root |
| ArbolBinarioCompleto.BuscaFallaAbajo | src/main/java/mx/unam/ciencias/edd/ArbolBinario.java:259-276 | a search that fails at a position fails at every position below it |
| ArbolBinarioCompleto.BuscaIndiceCompleta | src/main/java/mx/unam/ciencias/edd/ArbolBinarioCompleto.java:117 | the search from the root fails exactly when the element is absent |
| ArbolBinarioCompleto.QuitaMultiset | src/main/java/mx/unam/ciencias/edd/ArbolBinarioCompleto.java:145-147 | the last element moving into the removed place removes exactly one copy of the removed element |
| ArbolBinarioCompleto.QuitaConserva | src/main/java/mx/unam/ciencias/edd/ArbolBinarioCompleto.java:145-147 | every other position keeps its element, so the tree stays complete |
| ArbolBinarioCompleto.Completo.constructor | src/main/java/mx/unam/ciencias/edd/ArbolBinarioCompleto.java:47 | a new tree is empty |
| ArbolBinarioCompleto.Completo.Tamano | src/main/java/mx/unam/ciencias/edd/ArbolBinario.java:231-233 | the count is the number of vertices |
| ArbolBinarioCompleto.Completo.Agrega | src/main/java/mx/unam/ciencias/edd/ArbolBinarioCompleto.java:66-106 | null gives IllegalArgumentException and no change; otherwise the element goes at the end of the BFS order, the first free position |
| ArbolBinarioCompleto.Completo.Elimina | src/main/java/mx/unam/ciencias/edd/ArbolBinarioCompleto.java:114-150 | null changes nothing; an element the search misses throws ClassCastException; otherwise the last element of the BFS order takes the found element's place |
| ArbolBinarioCompleto.Completo.Bfs | src/main/java/mx/unam/ciencias/edd/ArbolBinarioCompleto.java:158-174 | the action sees the elements in BFS order; without an action nothing is visited |
| ArbolBinarioCompleto.Iterador.constructor | src/main/java/mx/unam/ciencias/edd/ArbolBinarioCompleto.java:21-25 | a new iterator has the whole BFS order pending |
| ArbolBinarioCompleto.Iterador.HayMas | src/main/java/mx/unam/ciencias/edd/ArbolBinarioCompleto.java:28-30 | true exactly when something is pending |
| ArbolBinarioCompleto.Iterador.Siguiente | src/main/java/mx/unam/ciencias/edd/ArbolBinarioCompleto.java:33-40 | NoSuchElementException when nothing is pending; otherwise the next element in BFS order |
| ArbolBinarioCompleto.RecorreConIterador | src/main/java/mx/unam/ciencias/edd/ArbolBinarioCompleto.java:21-40 | draining the iterator yields the BFS sequence |
| Lista.Posicion | src/main/java/mx/unam/ciencias/edd/Lista.java:452-465 | -1 exactly when absent; otherwise a position holding the element with none earlier |
| Lista.PosicionUnica | src/main/java/mx/unam/ciencias/edd/Lista.java:452-465 | the first position holding the element is the only such one |
| Lista.SinElemento | src/main/java/mx/unam/ciencias/edd/Lista.java:250-278 | removal shortens the contents by one exactly when the element occurs |
| Lista.SinElementoMultiset | src/main/java/mx/unam/ciencias/edd/Lista.java:250-278 | removal takes exactly one copy of the element out of the contents |
| Lista.Acota | src/main/java/mx/unam/ciencias/edd/Lista.java:215-243 | a non-positive index inserts at the front, one at least the length at the end, any other at that index |
| Lista.InsertaEn | src/main/java/mx/unam/ciencias/edd/Lista.java:215-243 | the element lands at the bounded index, and removing it gives the old contents |
| Lista.Invertida | src/main/java/mx/unam/ciencias/edd/Lista.java:359-371 | position i of the reversal holds position n - 1 - i |
| Lista.InvertidaInvolucion | src/main/java/mx/unam/ciencias/edd/Lista.java:359-371 | reversing twice gives the contents back |
| Lista.MezclaDesdeMultiset | src/main/java/mx/unam/ciencias/edd/Lista.java:601-640 | the merge holds what is left of both lists, with multiplicities |
| Lista.PasoMultisetIzquierdo | src/main/java/mx/unam/ciencias/edd/Lista.java:614-617 | the step that takes the left head keeps the multiset |
| Lista.PasoMultisetDerecho | src/main/java/mx/unam/ciencias/edd/Lista.java:618-621 | the step that takes the right head keeps the multiset |
| Lista.MezclaDesdeOrdenada | src/main/java/mx/unam/ciencias/edd/Lista.java:601-640 | merging two sorted lists gives a sorted list, headed by the smaller head |
| Lista.OrdenadaSufijo | src/main/java/mx/unam/ciencias/edd/Lista.java:601-640 | suffixes of sorted sequences are sorted |
| Lista.OrdenadaAlFrente | src/main/java/mx/unam/ciencias/edd/Lista.java:601-640 | a sorted sequence stays sorted with a smaller element in front |
| Lista.OrdenadaPorMezclaOrdena | src/main/java/mx/unam/ciencias/edd/Lista.java:555-599 | merge sort, halving at `longitud / 2`, sorts |
| Lista.OrdenadaPorMezclaPermuta | src/main/java/mx/unam/ciencias/edd/Lista.java:555-599 | merge sort keeps every element as often as it occurs |
| Lista.EntreExtremos | src/main/java/mx/unam/ciencias/edd/Lista.java:663-682 | in a sorted list every element lies between the first and the last |
| Lista.Nodo.constructor | src/main/java/mx/unam/ciencias/edd/Lista.java:30-32 | a new node holds the element and is unlinked |
| Lista.Lista.constructor | src/main/java/mx/unam/ciencias/edd/Lista.java:95-100 | a new list is empty and well formed |
| Lista.Lista.Afaltadeconstructor | src/main/java/mx/unam/ciencias/edd/Lista.java:103-109 | the list takes a well-formed chain of nodes as its contents |
| Lista.Lista.Adopta | src/main/java/mx/unam/ciencias/edd/Lista.java:103-109 | the ghost view of a list whose fields already point at a chain becomes that chain |
| Lista.Lista.GetLongitud | src/main/java/mx/unam/ciencias/edd/Lista.java:116-127 | `getLongitud` and `getElementos` give the number of elements |
| Lista.Lista.EsVacia | src/main/java/mx/unam/ciencias/edd/Lista.java:134-136 | true exactly when the contents are empty |
| Lista.Lista.AgregaFinal | src/main/java/mx/unam/ciencias/edd/Lista.java:146-173 | null gives IllegalArgumentException and no change; otherwise the element is appended |
| Lista.Lista.AgregaInicio | src/main/java/mx/unam/ciencias/edd/Lista.java:182-198 | null gives IllegalArgumentException and no change; otherwise the element is prepended |
| Lista.Lista.EliminaPrimero | src/main/java/mx/unam/ciencias/edd/Lista.java:285-303 | NoSuchElementException on an empty list; otherwise the first element is returned and removed |
| Lista.Lista.EliminaUltimo | src/main/java/mx/unam/ciencias/edd/Lista.java:310-330 | NoSuchElementException on an empty list; otherwise the last element is returned and removed |
| Lista.Lista.Inserta | src/main/java/mx/unam/ciencias/edd/Lista.java:215-243 | null gives IllegalArgumentException; otherwise the element is inserted at the index bounded to the list |
| Lista.Lista.EnlazaAntes | src/main/java/mx/unam/ciencias/edd/Lista.java:236-239 | the four writes link the new node between nodes i - 1 and i and keep the chain well formed |
| Lista.CadenaInsertada | src/main/java/mx/unam/ciencias/edd/Lista.java:236-239 | after the four writes the nodes, with the new one at position i, form a well-formed chain holding the old contents with the element inserted at i |
| Lista.Lista.Elimina | src/main/java/mx/unam/ciencias/edd/Lista.java:250-278 | the first node holding the element is unlinked; null or an absent element changes nothing |
| Lista.Lista.Desliga | src/main/java/mx/unam/ciencias/edd/Lista.java:259-276 | unlinking node k removes exactly position k, in all four head/tail cases |
| Lista.Lista.DesligaMedio | src/main/java/mx/unam/ciencias/edd/Lista.java:273-275 | a node with neighbours on both sides is bypassed, removing its position |
| Lista.Lista.Contiene | src/main/java/mx/unam/ciencias/edd/Lista.java:338-353 | true exactly for a non-null element in the contents |
| Lista.Lista.Get | src/main/java/mx/unam/ciencias/edd/Lista.java:432-444 | the element at the index; ExcepcionIndiceInvalido outside the list |
| Lista.Lista.IndiceDe | src/main/java/mx/unam/ciencias/edd/Lista.java:452-465 | the first position holding the element, or -1 when it is absent or null |
| Lista.Lista.Reversa | src/main/java/mx/unam/ciencias/edd/Lista.java:359-371 | a new list with the contents reversed |
| Lista.Lista.Copia | src/main/java/mx/unam/ciencias/edd/Lista.java:378-389 | a new list with the same contents |
| Lista.Lista.Equals | src/main/java/mx/unam/ciencias/edd/Lista.java:502-526 | true exactly for a non-null list with the same contents in the same order |
| Lista.Lista.MergeSort | src/main/java/mx/unam/ciencias/edd/Lista.java:555-557 | a new list holding the merge-sorted contents, hence sorted and a permutation |
| Lista.Lista.BusquedaLineal | src/main/java/mx/unam/ciencias/edd/Lista.java:663-682 | true exactly when there is a comparator, the list is non-empty, the element lies between the ends and occurs; on a sorted list, exactly when it occurs |
| Lista.Lista.Limpia | src/main/java/mx/unam/ciencias/edd/Lista.java:394-398 | the list becomes empty |
| Lista.Lista.GetPrimero | src/main/java/mx/unam/ciencias/edd/Lista.java:405-411 | NoSuchElementException exactly on an empty list; otherwise the first element |
| Lista.Lista.GetUltimo | src/main/java/mx/unam/ciencias/edd/Lista.java:418-423 | NoSuchElementException exactly on an empty list; otherwise the last element |
| Lista.Iterador.constructor | src/main/java/mx/unam/ciencias/edd/Lista.java:43-45 | a new iterator stands before the head |
| Lista.Iterador.HasNext | src/main/java/mx/unam/ciencias/edd/Lista.java:48-50 | true exactly before the tail |
| Lista.Iterador.Next | src/main/java/mx/unam/ciencias/edd/Lista.java:53-63 | returns the element after the position and moves on; NoSuchElementException past the tail |
| Lista.Iterador.HasPrevious | src/main/java/mx/unam/ciencias/edd/Lista.java:66-68 | true exactly after the head |
| Lista.Iterador.Previous | src/main/java/mx/unam/ciencias/edd/Lista.java:71-80 | moves back and returns the element moved over; NoSuchElementException before the head |
| Lista.Iterador.Start | src/main/java/mx/unam/ciencias/edd/Lista.java:83-86 | back before the head |
| Lista.Iterador.End | src/main/java/mx/unam/ciencias/edd/Lista.java:89-92 | past the tail |
| Lista.MergeSortDe | src/main/java/mx/unam/ciencias/edd/Lista.java:561-599 | the recursive merge sort over a list's nodes gives a well-formed list with the merge-sorted contents |
| Lista.OrdenaYMezcla | src/main/java/mx/unam/ciencias/edd/Lista.java:596 | both halves are sorted and merged: the result holds the merge of the two halves' merge sorts |
| Lista.Parte | src/main/java/mx/unam/ciencias/edd/Lista.java:580-594 | cutting at position k gives two disjoint well-formed lists holding the first k and the remaining elements |
| Lista.Corta | src/main/java/mx/unam/ciencias/edd/Lista.java:588-590 | the two writes break a chain into two chains at node k |
| Lista.CadenaDeLista | src/main/java/mx/unam/ciencias/edd/Lista.java:103-109 | a well-formed list is a chain of its nodes |
| Lista.Mezcla | src/main/java/mx/unam/ciencias/edd/Lista.java:601-640 | a new list holding the merge of both lists, the left element first on ties |
| Lista.MezclaFrentes | src/main/java/mx/unam/ciencias/edd/Lista.java:611-625 | the first loop of `mezcla` stops when either list is exhausted, having added what the merge puts first |
| Lista.PasoMezcla | src/main/java/mx/unam/ciencias/edd/Lista.java:612-624 | one round of that loop adds the smaller head and moves on in its list |
| Lista.MezclaAvanza | src/main/java/mx/unam/ciencias/edd/Lista.java:612-624 | the merge moves its smaller head, the left one on ties, to what is merged |
| Lista.AgregaNodo | src/main/java/mx/unam/ciencias/edd/Lista.java:627-636 | the node's element is appended and the walk moves to the next node |
| Lista.TomaNodo | src/main/java/mx/unam/ciencias/edd/Lista.java:612-636 | the element of node i goes to the end of the merged list and the walk moves to node i + 1, or to null after the tail |
| Lista.AgregaResto | src/main/java/mx/unam/ciencias/edd/Lista.java:627-636 | the tail loops append what is left of a list from its current node |
| Grafica.SumaActualiza | src/main/java/mx/unam/ciencias/edd/Grafica.java:97-99 | replacing a neighbour list changes the degree sum by the change in its length |
| Grafica.SumaSinPosicion | src/main/java/mx/unam/ciencias/edd/Grafica.java:173-185 | dropping a vertex drops its degree from the sum |
| Grafica.SumaIgual | src/main/java/mx/unam/ciencias/edd/Grafica.java:97-99 | the degree sum depends only on the degrees of the vertices summed |
| Grafica.SumaAgregado | src/main/java/mx/unam/ciencias/edd/Grafica.java:107-113 | a new vertex adds its degree to the sum |
| Grafica.SinElementoAgregado | src/main/java/mx/unam/ciencias/edd/Grafica.java:173-185 | removing the vertex just added gives the vertex list back |
| Grafica.DesconectaDeshaceConecta | src/main/java/mx/unam/ciencias/edd/Grafica.java:124-155 | `desconecta(a, b)` undoes `conecta(a, b)` |
| Grafica.EliminaDeshaceAgrega | src/main/java/mx/unam/ciencias/edd/Grafica.java:107-113 | `elimina(x)` undoes `agrega(x)` (also Grafica.java lines 173-185) |
| Grafica.CaminoExtendido | src/main/java/mx/unam/ciencias/edd/Grafica.java:305-309 | a path ending at a vertex extends to any of its neighbours |
| Grafica.CaminoCerrado | src/main/java/mx/unam/ciencias/edd/Grafica.java:294-313 | a path cannot leave a set closed under taking neighbours |
| Grafica.AlcanzableSimetrico | src/main/java/mx/unam/ciencias/edd/Grafica.java:124-135 | adjacency being symmetric, so is reachability |
| Grafica.AlcanzableTransitivo | src/main/java/mx/unam/ciencias/edd/Grafica.java:250-263 | reachability is transitive |
| Grafica.ConexaEntreTodos | src/main/java/mx/unam/ciencias/edd/Grafica.java:250-263 | reaching every vertex from one, as `esConexa` checks, connects every pair |
| Grafica.Grafica.constructor | src/main/java/mx/unam/ciencias/edd/Grafica.java:80-82 | a new graph has no vertices and no edges |
| Grafica.Grafica.GetElementos | src/main/java/mx/unam/ciencias/edd/Grafica.java:89-91 | the number of vertices |
| Grafica.Grafica.GetAristas | src/main/java/mx/unam/ciencias/edd/Grafica.java:97-99 | the edge counter is half the sum of the degrees |
| Grafica.Grafica.EsVacia | src/main/java/mx/unam/ciencias/edd/Grafica.java:340-342 | true exactly when there is no vertex |
| Grafica.Grafica.BuscaVertice | src/main/java/mx/unam/ciencias/edd/Grafica.java:207-214 | the first position of the element among the vertices, or none |
| Grafica.Grafica.Contiene | src/main/java/mx/unam/ciencias/edd/Grafica.java:162-164 | true exactly for a vertex of the graph |
| Grafica.Grafica.Agrega | src/main/java/mx/unam/ciencias/edd/Grafica.java:107-113 | null or a present element gives IllegalArgumentException and no change; otherwise a new isolated colourless vertex at the end |
| Grafica.Grafica.SonVecinos | src/main/java/mx/unam/ciencias/edd/Grafica.java:195-204 | NoSuchElementException unless both are vertices; otherwise whether they are adjacent, the same from either side |
| Grafica.Grafica.Conecta | src/main/java/mx/unam/ciencias/edd/Grafica.java:124-135 | a null first element gives NullPointerException (`a.equals(b)`), a null second one NoSuchElementException; then IllegalArgumentException for a loop, NoSuchElementException for a missing vertex, IllegalArgumentException for an existing edge, no change on any error; otherwise the edge is added at both ends and counted |
| Grafica.Grafica.Desconecta | src/main/java/mx/unam/ciencias/edd/Grafica.java:145-155 | NoSuchElementException for a missing vertex, IllegalArgumentException for no edge, no change on error; otherwise the edge goes from both ends with one edge less |
| Grafica.Grafica.Elimina | src/main/java/mx/unam/ciencias/edd/Grafica.java:173-185 | NoSuchElementException and no change for a missing vertex; otherwise the vertex and every edge at it go |
| Grafica.Grafica.DesligaVecinos | src/main/java/mx/unam/ciencias/edd/Grafica.java:179-183 | the loop of `elimina` takes the vertex out of each neighbour's list, one edge at a time |
| Grafica.Grafica.Vertice | src/main/java/mx/unam/ciencias/edd/Grafica.java:222-232 | the vertex holding the element, or NoSuchElementException |
| Grafica.Grafica.SetColor | src/main/java/mx/unam/ciencias/edd/Grafica.java:240-243 | a null handle gives NullPointerException and a handle of another class IllegalArgumentException, without change; otherwise only the colour of this graph's vertex with the handle's element changes, and only when the handle is this graph's and that element is a vertex (a stale handle whose element was re-added paints the new vertex, as under "## Left out") |
| Grafica.Grafica.ParaCadaVertice | src/main/java/mx/unam/ciencias/edd/Grafica.java:270-273 | the action sees every vertex once, in insertion order; a null action on a non-empty graph gives NullPointerException before any vertex is seen |
| Grafica.Grafica.PintaVertices | src/main/java/mx/unam/ciencias/edd/Grafica.java:375-378 | every vertex gets the colour; nothing else changes |
| Grafica.Grafica.Explora | src/main/java/mx/unam/ciencias/edd/Grafica.java:305-309 | the inner loop paints each red neighbour black and puts it to wait, so every neighbour has been visited or is waiting |
| Grafica.Grafica.Paso | src/main/java/mx/unam/ciencias/edd/Grafica.java:302-310 | one round takes a vertex off the queue or stack, visits it, and keeps the traversal invariant |
| Grafica.Grafica.Recorrido | src/main/java/mx/unam/ciencias/edd/Grafica.java:294-313 | with an action, the visit holds, once each, exactly the vertices reachable from the start, starting there, and those are left black, the rest red; without one nothing happens |
| Grafica.Grafica.Bfs | src/main/java/mx/unam/ciencias/edd/Grafica.java:285-292 | NoSuchElementException for a missing vertex; otherwise the reachable vertices are visited once each and every colour is cleared |
| Grafica.Grafica.Dfs | src/main/java/mx/unam/ciencias/edd/Grafica.java:326-333 | the same, with a stack |
| Grafica.Grafica.Busqueda | src/main/java/mx/unam/ciencias/edd/Grafica.java:285-292 | the body shared by BFS and DFS, with the same contract (also Grafica.java lines 326-333) |
| Grafica.Grafica.EsConexa | src/main/java/mx/unam/ciencias/edd/Grafica.java:250-263 | true exactly when the graph has vertices and every vertex is reachable from the first; the reached ones end black, the rest red |
| Grafica.Grafica.Limpia | src/main/java/mx/unam/ciencias/edd/Grafica.java:347-350 | no vertices, no edges |
| Grafica.SinRepetidosSinElemento | src/main/java/mx/unam/ciencias/edd/Grafica.java:173-185 | removing a vertex from a list without repetitions removes it entirely and keeps the others |
| Grafica.PosicionUnicaMultiset | src/main/java/mx/unam/ciencias/edd/Grafica.java:107-113 | in a list without repetitions every element occurs once |
| Grafica.InicioRecorrido | src/main/java/mx/unam/ciencias/edd/Grafica.java:294-301 | painting everything red and the start black sets up the traversal invariant |
| Grafica.FinRecorrido | src/main/java/mx/unam/ciencias/edd/Grafica.java:302-313 | once nothing waits, the visit holds exactly the reachable vertices, and they are the black ones |
| Grafica.Acotada | src/main/java/mx/unam/ciencias/edd/Grafica.java:302-310 | a visit without repetitions is no longer than the vertex list, so the traversal ends |
| Grafica.Saca | src/main/java/mx/unam/ciencias/edd/Grafica.java:303-304 | taking the next vertex from the queue or stack to visit it keeps the traversal invariant |
| Grafica.Marca | src/main/java/mx/unam/ciencias/edd/Grafica.java:305-309 | painting a red neighbour black and putting it to wait keeps the traversal invariant |
| Grafica.SacaDe | src/main/java/mx/unam/ciencias/edd/Grafica.java:303-304 | the visited, the waiting and the vertex taken stay apart |
| Grafica.EliminaVecinos | src/main/java/mx/unam/ciencias/edd/Grafica.java:179-183 | after the loop of `elimina`, dropping the vertex gives exactly the adjacency without it |
| Grafica.AgregaConserva | src/main/java/mx/unam/ciencias/edd/Grafica.java:107-113 | `agrega` keeps the graph invariant |
| Grafica.SimpleAgregado | src/main/java/mx/unam/ciencias/edd/Grafica.java:107-113 | a new isolated vertex keeps the graph simple |
| Grafica.ConectaConserva | src/main/java/mx/unam/ciencias/edd/Grafica.java:124-135 | `conecta` keeps the invariant, with one edge more |
| Grafica.DesconectaConserva | src/main/java/mx/unam/ciencias/edd/Grafica.java:145-155 | `desconecta` keeps the invariant, with one edge less |
| Grafica.DesligaPaso | src/main/java/mx/unam/ciencias/edd/Grafica.java:179-183 | one round of the loop of `elimina` unlinks one more neighbour and takes one edge off |
| Grafica.EliminaConserva | src/main/java/mx/unam/ciencias/edd/Grafica.java:173-185 | `elimina` keeps the invariant, with the vertex's edges gone |
| Grafica.EliminaClaves | src/main/java/mx/unam/ciencias/edd/Grafica.java:173-185 | after `elimina` the vertex list and the adjacency keys still agree |
| Grafica.EliminaAdyacencia | src/main/java/mx/unam/ciencias/edd/Grafica.java:173-185 | after `elimina` the adjacency is the one without the vertex, and it is simple |
| Grafica.EliminaSuma | src/main/java/mx/unam/ciencias/edd/Grafica.java:173-185 | after `elimina` the counter is again half the degree sum |
| Grafica.SimpleConectada | src/main/java/mx/unam/ciencias/edd/Grafica.java:124-135 | `conecta` keeps the graph simple |
| Grafica.SimpleDesconectada | src/main/java/mx/unam/ciencias/edd/Grafica.java:145-155 | `desconecta` keeps the graph simple |
| Grafica.SimpleVecinosSin | src/main/java/mx/unam/ciencias/edd/Grafica.java:173-185 | `elimina` keeps the graph simple |
| Comun.SinPosicion | src/main/java/mx/unam/ciencias/edd/Lista.java:250-278 | deleting one position shortens a sequence by one |
| Comun.SinPosicionMultiset | src/main/java/mx/unam/ciencias/edd/Lista.java:250-278 | deleting a position takes out one copy of its value |
| Comun.SinRepetidosSinPosicion | src/main/java/mx/unam/ciencias/edd/Grafica.java:173-185 | deleting a position keeps the elements distinct |
| Comun.SinRepetidosInsertado | src/main/java/mx/unam/ciencias/edd/Lista.java:215-243 | inserting a new value keeps the elements distinct |
| Comun.PartesSinRepetidos | src/main/java/mx/unam/ciencias/edd/Lista.java:580-594 | the two sides of a cut are without repetitions and disjoint |
| Comun.OrdenadaSinPosicion | src/main/java/mx/unam/ciencias/edd/ArbolBinarioOrdenado.java:133-150 | deleting a position keeps a sorted sequence sorted, so deletion keeps a search tree ordered |

## Left out

- The `toString` methods, `dibujaespacios` and the vertex `toString` methods: text rendering only.
- The constructors that take a `Coleccion`, and `iterator()`: each only adds a collection's elements or builds an iterator, and the iterators are modelled directly.
- Generic `Comparable` and `Comparator`: elements are `int` with their natural order. Java `int` overflow is not modelled, since no operation of the core computes with elements.
- `Grafica.equals` and its debugging output, and the graph's own `Iterador`: the iterator only walks the vertex list, which is `ParaCadaVertice`.
- Callbacks (`AccionVerticeArbolBinario`, `AccionVerticeGrafica`, `Comparator`) are foreign code. An action is modelled by the sequence of elements it receives, plus a flag saying whether the action is null. `ArbolBinarioOrdenado.Dfs` and `Grafica.Grafica.ParaCadaVertice` throw NullPointerException on a null action. `ArbolBinarioCompleto.Completo.Bfs`, `Grafica.Grafica.Bfs` and `Grafica.Grafica.Dfs` do nothing with it, as the source checks for null there.
- The trees are values, not parent-linked objects. Relinking in place, shared vertex objects, and `VerticeArbolBinario` handles outliving a change are not captured; a handle is a path from the root.
- ArbolAVL and ArbolRojinegro rebalancing: the upward parent walks become recursion that repairs each vertex on the way back from the change to the root. The repairs are the same steps in the same order, with one exception. Every left rotation is the identity-based `GiraIzquierda`, where the source calls `giraIzquierda`, which has the defect under "## Findings". That defect bites only when the rotated vertex is a right child whose left sibling holds an equal element. The members below are therefore weaker than the source on such trees: they promise a valid tree where the source breaks it.
- ArbolAVL.AjusteIzquierdo: rotates left by identity where `ArbolAVL.java:150` calls `giraIzquierda` (see "## Findings").
- ArbolAVL.Paso: inherits the identity-based left rotation of `AjusteIzquierdo`.
- ArbolAVL.Repara: inherits the identity-based left rotation of `AjusteIzquierdo` through `Paso`.
- ArbolAVL.Agrega: after a left rotation under an equal left sibling, the model's tree is a valid AVL tree where the source's is not (5, 5, 5, 5, 6, 7 under "## Findings").
- ArbolAVL.Elimina: the rebalancing after a deletion uses the same identity-based left rotation; no input that reaches the defect through `elimina` is exhibited.
- ArbolRojinegro.BalanceaDerecho: rotates the grandparent left by identity where `ArbolRojinegro.java:171` calls `giraIzquierda` (see "## Findings").
- ArbolRojinegro.Agrega: inherits the identity-based left rotation of `BalanceaDerecho` (5, 5, 5, 6, 7 under "## Findings").
- ArbolRojinegro.BalanceoEliminaIzquierdo: rotates the parent left by identity where `ArbolRojinegro.java:239` calls `giraIzquierda`; no input that reaches the defect there is exhibited.
- ArbolRojinegro.ResuelveIzquierdo: rotates the parent left by identity where `ArbolRojinegro.java:286` calls `giraIzquierda`; no input that reaches the defect there is exhibited.
- ArbolRojinegro.Elimina: inherits the identity-based left rotations of `BalanceoEliminaIzquierdo` and `ResuelveIzquierdo`.
- ArbolBinarioOrdenado.Iterador.Siguiente: requires a pending element. On an empty stack the source's `Pila.saca` throws, and `Pila` is not part of this model.
- Lista.Lista.BusquedaLineal: the comparator is reduced to whether one is given, and the natural order stands for it.
- Lista.Lista.MergeSort: the comparator is the natural order.
- Lista: `agrega` is `agregaFinal` (it only calls it). The two tail loops of `mezcla` are one method, `AgregaResto`, used twice.
- Grafica.Grafica.Bfs: breadth-first order is not stated (see the next line).
- Grafica.Grafica.Dfs: depth-first order is not stated (see the next line).
- Grafica.Grafica.Recorrido: whether the order of the visit is breadth-first or depth-first is not specified. The contract states what both promise: the start first, each reachable vertex once, nothing else, and the final colours.
- Grafica.Grafica.BuscaVertice: the source compares elements with `==`, reference identity on boxed values. The model uses value equality. Every caller of `buscaVertice` inherits the difference: `agrega` (Grafica.java:109), `conecta` (:127), `desconecta` (:146), `contiene` (:163), `elimina` (:174), `sonVecinos` (:196), `bfs` and `dfs` (:286, :327). For boxed values outside the small-integer cache the source can add a second vertex with an equal element, or answer that a present element is absent; the model does neither. `vertice` (:226) compares with `equals`, as the model does.
- Grafica.Grafica.SonVecinos, Grafica.Grafica.Desconecta, Grafica.Grafica.Elimina, Grafica.Grafica.Contiene, Grafica.Grafica.Vertice, Grafica.Grafica.Bfs and Grafica.Grafica.Dfs take a plain element, so a null argument is not expressed. In the source `buscaVertice(null)` (and the `equals` test in `vertice`) finds nothing, so null behaves as an absent element: NoSuchElementException, or false for `contiene`.
- Grafica.Grafica.DesligaVecinos: the loop walks the removed vertex's own neighbour list as it was before the loop. The source walks the same list, which the loop never changes.
- Grafica.Grafica.SetColor: a handle names a vertex by its graph and its element, not by object identity. A vertex object removed from the graph, or handed out by another graph, is painted without this graph changing, and the model does not track that object's colour, so the other graph's vertex is not repainted. A handle kept across `elimina(e)` followed by `agrega(e)` is NOT told apart from the new vertex: the model paints the new vertex, where the source paints only the removed object and leaves the graph's vertex as it was.
- ArbolAVL.Paso: the unreachable `null` child in the balance -2 and +2 cases, where the source would dereference null, is modelled as doing nothing.
- ArbolRojinegro.ResuelveIzquierdo and ArbolRojinegro.ResuelveDerecho: a missing sibling, impossible for a black short subtree, is modelled as doing nothing, where the source would dereference null.

## Findings

| source | as written | input that shows it | evidently intended | confidence | as-written member | corrected member |
|---|---|---|---|---|---|---|
| src/main/java/mx/unam/ciencias/edd/ArbolBinarioOrdenado.java:281 | `giraIzquierda` decides whether the rotated vertex was its parent's left child with `elemento.equals`, so a left sibling with an equal element is taken for the vertex itself | the ordered tree 5(5, 5(-, 6)) with in-order 5 5 5 6, rotated left at the root's right child: the parent's left child is relinked instead, giving in-order 5 6 5 5, no longer ordered | compare the vertices by identity, as `giraDerecha` does at line 254 | not executed | ArbolBinarioOrdenado.GiraIzquierdaEscritaRompeOrden | ArbolBinarioOrdenado.GiraIzquierda |
| src/main/java/mx/unam/ciencias/edd/ArbolAVL.java:150 | `rebalanceo` rotates with `super.giraIzquierda(v)`, so the defect at `ArbolBinarioOrdenado.java:281` reaches AVL insertion | `agrega` of 5, 5, 5, 5, 6, 7: the sixth insertion (of 7) rotates the root's right child, whose left sibling equals it, and leaves 5(6(5, 7), 5), in-order 5 6 7 5 5 | an identity-based rotation, giving the AVL tree 5(5(5, -), 6(5, 7)); the repair is proved correct by `AjusteIzquierdoCorrecto` and this input by `SextaInsercionAVL` | not executed | ArbolAVL.RotacionEscritaAVL | ArbolAVL.AjusteIzquierdo |
| src/main/java/mx/unam/ciencias/edd/ArbolRojinegro.java:171 | the last case of `balanceoAgrega` rotates the grandparent with `super.giraIzquierda(a)`, so the same defect reaches red-black insertion | `agrega` of 5, 5, 5, 6, 7: the last case rotates the root's right child, whose left sibling equals it, and leaves 5(6(5, 7), 5), in-order 5 6 7 5 5 | an identity-based rotation, giving the red-black tree 5(5, 6(5, 7)); the step is proved correct by `BalanceaDerechoCorrecto` and this input by `QuintaInsercionRN` | not executed | ArbolRojinegro.RotacionEscritaRN | ArbolRojinegro.BalanceaDerecho |
