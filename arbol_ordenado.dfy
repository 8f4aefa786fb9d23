/** Ordered binary trees: every element is at least the elements of its left
    subtree and at most those of its right subtree.  Insertion descends by
    comparison with ties going left, search descends the same way, deletion
    swaps a two-child vertex with the maximum of its left subtree and then
    splices out a vertex with at most one child, and rotations move a child
    into its parent's place without changing the in-order sequence. */
module ArbolBinarioOrdenado {
  import opened Comun
  import opened ArbolBinario

  // ---------------------------------------------------------------------
  // Depth-first orders (the sequence of elements the action is run on)

  /** `dfsInOrder`: left subtree, the vertex, right subtree. */
  function EnOrden<P>(v: Vertice<P>): seq<int>
  {
    match v
    case Nulo => []
    case Vertice(i, e, _, d) => EnOrden(i) + [e] + EnOrden(d)
  }

  /** `dfsPreOrder`: the vertex, left subtree, right subtree. */
  function PreOrden<P>(v: Vertice<P>): seq<int>
  {
    match v
    case Nulo => []
    case Vertice(i, e, _, d) => [e] + PreOrden(i) + PreOrden(d)
  }

  /** `dfsPostOrder`: left subtree, right subtree, the vertex. */
  function PostOrden<P>(v: Vertice<P>): seq<int>
  {
    match v
    case Nulo => []
    case Vertice(i, e, _, d) => PostOrden(i) + PostOrden(d) + [e]
  }

  /** Each order visits every vertex exactly once: its elements are the
      tree's, with multiplicity. */
  lemma RecorridosCompletos<P>(v: Vertice<P>)
    ensures multiset(EnOrden(v)) == Elementos(v)
    ensures multiset(PreOrden(v)) == Elementos(v)
    ensures multiset(PostOrden(v)) == Elementos(v)
  {
    EnOrdenCompleto(v);
    PreOrdenCompleto(v);
    PostOrdenCompleto(v);
  }

  lemma {:induction false} EnOrdenCompleto<P>(v: Vertice<P>)
    ensures multiset(EnOrden(v)) == Elementos(v)
  {
    match v
    case Nulo =>
    case Vertice(i, e, _, d) =>
      EnOrdenCompleto(i);
      EnOrdenCompleto(d);
      assert EnOrden(v) == EnOrden(i) + [e] + EnOrden(d);
  }

  lemma {:induction false} PreOrdenCompleto<P>(v: Vertice<P>)
    ensures multiset(PreOrden(v)) == Elementos(v)
  {
    match v
    case Nulo =>
    case Vertice(i, e, _, d) =>
      PreOrdenCompleto(i);
      PreOrdenCompleto(d);
      assert PreOrden(v) == [e] + PreOrden(i) + PreOrden(d);
  }

  lemma {:induction false} PostOrdenCompleto<P>(v: Vertice<P>)
    ensures multiset(PostOrden(v)) == Elementos(v)
  {
    match v
    case Nulo =>
    case Vertice(i, e, _, d) =>
      PostOrdenCompleto(i);
      PostOrdenCompleto(d);
      assert PostOrden(v) == PostOrden(i) + PostOrden(d) + [e];
  }

  /** Every order has one entry per vertex; pre-order starts and post-order
      ends at the root. */
  lemma {:induction false} RecorridosLongitud<P>(v: Vertice<P>)
    ensures |EnOrden(v)| == Tamano(v) && |PreOrden(v)| == Tamano(v) && |PostOrden(v)| == Tamano(v)
    ensures v.Vertice? ==> PreOrden(v)[0] == v.elemento && PostOrden(v)[Tamano(v) - 1] == v.elemento
  {
    match v
    case Nulo =>
    case Vertice(i, e, _, d) =>
      RecorridosLongitud(i);
      RecorridosLongitud(d);
  }

  /** Which of the three depth-first methods is called. */
  datatype OrdenDfs = PreOrder | InOrder | PostOrder

  /** `dfsPreOrder`, `dfsInOrder` and `dfsPostOrder` with the action given
      as whether it is null: an empty tree returns at once; on a non-empty
      one a null action is dereferenced at the first vertex it would see
      (NullPointerException); otherwise the result is the sequence of
      elements the action receives, each vertex exactly once. */
  function Dfs<P>(a: Arbol<P>, orden: OrdenDfs, accionNula: bool): (r: Result<seq<int>>)
    ensures r.Err? <==> accionNula && a.raiz.Vertice?
    ensures r.Err? ==> r.error == ApuntadorNulo
    ensures r.Ok? ==> multiset(r.value) == Elementos(a.raiz) && |r.value| == Tamano(a.raiz)
    ensures r.Ok? && a.raiz.Nulo? ==> r.value == []
    ensures r.Ok? && orden == InOrder ==> (Ordenada(r.value) <==> EsABB(a.raiz))
    ensures r.Ok? && a.raiz.Vertice? && orden == PreOrder ==> r.value[0] == a.raiz.elemento
    ensures r.Ok? && a.raiz.Vertice? && orden == PostOrder ==> r.value[|r.value| - 1] == a.raiz.elemento
  {
    RecorridosCompletos(a.raiz);
    RecorridosLongitud(a.raiz);
    ABBSiiEnOrdenOrdenado(a.raiz);
    if a.raiz.Nulo? then Ok([])
    else if accionNula then Err(ApuntadorNulo)
    else match orden
      case PreOrder => Ok(PreOrden(a.raiz))
      case InOrder => Ok(EnOrden(a.raiz))
      case PostOrder => Ok(PostOrden(a.raiz))
  }

  // ---------------------------------------------------------------------
  // The ordering invariant

  /** The class invariant: every element is >= every element of its left
      subtree and <= every element of its right subtree. */
  ghost predicate EsABB<P>(v: Vertice<P>)
  {
    match v
    case Nulo => true
    case Vertice(i, e, _, d) =>
      EsABB(i) && EsABB(d)
      && (forall y :: y in Elementos(i) ==> y <= e)
      && (forall y :: y in Elementos(d) ==> e <= y)
  }

  lemma OrdenadaTres(a: seq<int>, e: int, b: seq<int>)
    ensures Ordenada(a + [e] + b) <==>
            Ordenada(a) && Ordenada(b) && (forall y :: y in a ==> y <= e) && (forall y :: y in b ==> e <= y)
  {
    var s := a + [e] + b;
    if Ordenada(s) {
      forall i, j | 0 <= i < j < |a| ensures a[i] <= a[j] { assert s[i] == a[i] && s[j] == a[j]; }
      forall i, j | 0 <= i < j < |b| ensures b[i] <= b[j] {
        assert s[|a| + 1 + i] == b[i] && s[|a| + 1 + j] == b[j];
      }
      forall y | y in a ensures y <= e {
        var k :| 0 <= k < |a| && a[k] == y;
        assert s[k] == y && s[|a|] == e;
      }
      forall y | y in b ensures e <= y {
        var k :| 0 <= k < |b| && b[k] == y;
        assert s[|a| + 1 + k] == y && s[|a|] == e;
      }
    }
    if Ordenada(a) && Ordenada(b) && (forall y :: y in a ==> y <= e) && (forall y :: y in b ==> e <= y) {
      forall i, j | 0 <= i < j < |s| ensures s[i] <= s[j] {
        if j < |a| { assert s[i] == a[i] && s[j] == a[j]; }
        else if i < |a| {
          assert s[i] == a[i] && a[i] in a;
          if j > |a| { assert s[j] == b[j - |a| - 1] && b[j - |a| - 1] in b; }
        } else if i == |a| {
          if j > |a| { assert s[j] == b[j - |a| - 1] && b[j - |a| - 1] in b; }
        } else {
          assert s[i] == b[i - |a| - 1] && s[j] == b[j - |a| - 1];
        }
      }
    }
  }

  /** The ordering invariant holds exactly when the in-order sequence is
      non-decreasing. */
  lemma {:induction false} ABBSiiEnOrdenOrdenado<P>(v: Vertice<P>)
    ensures EsABB(v) <==> Ordenada(EnOrden(v))
  {
    match v
    case Nulo =>
    case Vertice(i, e, _, d) =>
      ABBSiiEnOrdenOrdenado(i);
      ABBSiiEnOrdenOrdenado(d);
      RecorridosCompletos(i);
      RecorridosCompletos(d);
      OrdenadaTres(EnOrden(i), e, EnOrden(d));
      assert forall y :: y in Elementos(i) <==> y in EnOrden(i);
      assert forall y :: y in Elementos(d) <==> y in EnOrden(d);
  }

  // ---------------------------------------------------------------------
  // Insertion

  /** The private recursive `agrega(actual, agregar)`: an element that
      compares <= the current vertex goes left, otherwise right, down to the
      first vacancy, where a new vertex with payload `nuevo` is attached. */
  function Inserta<P>(v: Vertice<P>, x: int, nuevo: P): (r: Vertice<P>)
    ensures Elementos(r) == Elementos(v) + multiset{x}
    ensures Tamano(r) == Tamano(v) + 1
    ensures EsABB(v) ==> EsABB(r)
  {
    match v
    case Nulo => Vertice(Nulo, x, nuevo, Nulo)
    case Vertice(i, e, p, d) =>
      if x <= e then Vertice(Inserta(i, x, nuevo), e, p, d)
      else Vertice(i, e, p, Inserta(d, x, nuevo))
  }

  /** Where the descent of `Inserta` attaches the new vertex. */
  function RutaNueva<P>(v: Vertice<P>, x: int, nuevo: P): (r: Ruta)
    ensures SubarbolEn(Inserta(v, x, nuevo), r) == Vertice(Nulo, x, nuevo, Nulo)
  {
    match v
    case Nulo => []
    case Vertice(i, e, _, d) =>
      if x <= e then
        var q := RutaNueva(i, x, nuevo);
        assert ([false] + q)[0] == false && ([false] + q)[1..] == q;
        [false] + q
      else
        var q := RutaNueva(d, x, nuevo);
        assert ([true] + q)[0] == true && ([true] + q)[1..] == q;
        [true] + q
  }

  /** `agrega(e)`: null throws IllegalArgumentException; otherwise the count
      rises by one, the element joins the tree, the ordering is kept, and
      the returned handle (`getUltimoVerticeAgregado()`) is a new leaf
      holding the element. */
  function Agrega<P>(a: Arbol<P>, e: Option<int>, nuevo: P): (r: Result<(Arbol<P>, Ruta)>)
    ensures e.None? <==> r.Err?
    ensures r.Err? ==> r.error == ArgumentoIlegal
    ensures r.Ok? ==>
      var (b, ultimo) := r.value;
      b.elementos == a.elementos + 1
      && Elementos(b.raiz) == Elementos(a.raiz) + multiset{e.value}
      && (Contado(a) ==> Contado(b))
      && (EsABB(a.raiz) ==> EsABB(b.raiz))
      && SubarbolEn(b.raiz, ultimo) == Vertice(Nulo, e.value, nuevo, Nulo)
  {
    match e
    case None => Err(ArgumentoIlegal)
    case Some(x) =>
      Ok((Arbol(Inserta(a.raiz, x, nuevo), a.elementos + 1), RutaNueva(a.raiz, x, nuevo)))
  }

  // ---------------------------------------------------------------------
  // Search

  /** The private `busca(v, e)`: stop at an element that compares equal,
      otherwise go left when the query is smaller and right when not. */
  function BuscaABB<P>(v: Vertice<P>, x: int): (r: Option<Ruta>)
    ensures r.Some? ==> EsVertice(v, r.value) && SubarbolEn(v, r.value).elemento == x
    ensures EsABB(v) ==> (r.None? <==> x !in Elementos(v))
  {
    match v
    case Nulo => None
    case Vertice(i, e, _, d) =>
      if e == x then Some([])
      else if x < e then
        match BuscaABB(i, x)
        case None => None
        case Some(q) =>
          assert ([false] + q)[0] == false && ([false] + q)[1..] == q;
          Some([false] + q)
      else
        match BuscaABB(d, x)
        case None => None
        case Some(q) =>
          assert ([true] + q)[0] == true && ([true] + q)[1..] == q;
          Some([true] + q)
  }

  /** `busca(e)` of the ordered tree: null on an empty tree; a null query on
      a non-empty tree reaches `compareTo(null)` (NullPointerException). */
  function Busca<P>(a: Arbol<P>, e: Option<int>): (r: Result<Option<Ruta>>)
    ensures r.Err? <==> a.raiz.Vertice? && e.None?
    ensures r.Err? ==> r.error == ApuntadorNulo
    ensures r.Ok? && r.value.Some? ==> e.Some? && EsVertice(a.raiz, r.value.value)
                                       && SubarbolEn(a.raiz, r.value.value).elemento == e.value
    ensures r.Ok? && e.Some? && EsABB(a.raiz) ==> (r.value.None? <==> e.value !in Elementos(a.raiz))
  {
    if a.raiz.Nulo? then Ok(None)
    else if e.None? then Err(ApuntadorNulo)
    else Ok(BuscaABB(a.raiz, e.value))
  }

  /** `contiene(e)` on an ordered, AVL or red-black tree: the inherited
      `contiene` calls the overriding `busca`, so a null query on a
      non-empty tree throws NullPointerException; otherwise, on an ordered
      tree, the answer is whether the element occurs. */
  function Contiene<P>(a: Arbol<P>, e: Option<int>): (r: Result<bool>)
    ensures r.Err? <==> a.raiz.Vertice? && e.None?
    ensures r.Err? ==> r.error == ApuntadorNulo
    ensures r.Ok? && e.None? ==> !r.value
    ensures r.Ok? && EsABB(a.raiz) ==> (r.value <==> e.Some? && e.value in Elementos(a.raiz))
  {
    match Busca(a, e)
    case Err(x) => Err(x)
    case Ok(h) => Ok(h.Some?)
  }

  // ---------------------------------------------------------------------
  // Paths, replacement and the in-order sequence

  /** In-order elements before the vertex at the path. */
  function Antes<P>(v: Vertice<P>, p: Ruta): seq<int>
    decreases |p|
  {
    if p == [] then []
    else match v
      case Nulo => []
      case Vertice(i, e, _, d) => if p[0] then EnOrden(i) + [e] + Antes(d, p[1..]) else Antes(i, p[1..])
  }

  /** In-order elements after the subtree at the path. */
  function Despues<P>(v: Vertice<P>, p: Ruta): seq<int>
    decreases |p|
  {
    if p == [] then []
    else match v
      case Nulo => []
      case Vertice(i, e, _, d) => if p[0] then Despues(d, p[1..]) else Despues(i, p[1..]) + [e] + EnOrden(d)
  }

  /** Replacing the subtree at a vertex by `s` replaces its stretch of the
      in-order sequence by `EnOrden(s)`. */
  lemma {:induction false} EnOrdenReemplazo<P>(v: Vertice<P>, p: Ruta, s: Vertice<P>)
    requires EsVertice(v, p)
    ensures EnOrden(ReemplazaEn(v, p, s)) == Antes(v, p) + EnOrden(s) + Despues(v, p)
    ensures EnOrden(v) == Antes(v, p) + EnOrden(SubarbolEn(v, p)) + Despues(v, p)
  {
    EnOrdenReemplazado(v, p, s);
    EnOrdenReemplazado(v, p, SubarbolEn(v, p));
    ReemplazoMismo(v, p);
  }

  lemma {:induction false} EnOrdenReemplazado<P>(v: Vertice<P>, p: Ruta, s: Vertice<P>)
    requires EsVertice(v, p)
    ensures EnOrden(ReemplazaEn(v, p, s)) == Antes(v, p) + EnOrden(s) + Despues(v, p)
    decreases |p|
  {
    if p != [] {
      match v
      case Nulo =>
        assert SubarbolEn(v, p) == SubarbolEn<P>(Nulo, p[1..]);
        NuloSinVertices<P>(p[1..]);
      case Vertice(i, e, x, d) =>
        var q := p[1..];
        if p[0] {
          assert SubarbolEn(v, p) == SubarbolEn(d, q);
          EnOrdenReemplazado(d, q, s);
          var A, D := Antes(d, q), Despues(d, q);
          calc {
            EnOrden(ReemplazaEn(v, p, s));
            EnOrden(Vertice(i, e, x, ReemplazaEn(d, q, s)));
            EnOrden(i) + [e] + (A + EnOrden(s) + D);
            { ReagrupaIzquierda(EnOrden(i) + [e], A, EnOrden(s), D); }
            (EnOrden(i) + [e] + A) + EnOrden(s) + D;
          }
        } else {
          assert SubarbolEn(v, p) == SubarbolEn(i, q);
          EnOrdenReemplazado(i, q, s);
          var A, D := Antes(i, q), Despues(i, q);
          calc {
            EnOrden(ReemplazaEn(v, p, s));
            EnOrden(Vertice(ReemplazaEn(i, q, s), e, x, d));
            (A + EnOrden(s) + D) + ([e] + EnOrden(d));
            { ReagrupaDerecha(A, EnOrden(s), D, [e] + EnOrden(d)); }
            A + EnOrden(s) + (D + ([e] + EnOrden(d)));
            A + EnOrden(s) + (D + [e] + EnOrden(d));
          }
        }
    }
  }

  lemma {:induction false} SubarbolCompuesto<P>(v: Vertice<P>, p: Ruta, q: Ruta)
    ensures SubarbolEn(v, p + q) == SubarbolEn(SubarbolEn(v, p), q)
    decreases |p|
  {
    if p != [] {
      assert (p + q)[0] == p[0] && (p + q)[1..] == p[1..] + q;
      SubarbolCompuesto(Hijo(v, p[0]), p[1..], q);
    } else {
      assert p + q == q;
    }
  }

  lemma {:induction false} ReemplazoCompuesto<P>(v: Vertice<P>, p: Ruta, q: Ruta, s: Vertice<P>)
    requires EsVertice(v, p)
    ensures ReemplazaEn(v, p + q, s) == ReemplazaEn(v, p, ReemplazaEn(SubarbolEn(v, p), q, s))
    decreases |p|
  {
    if p != [] {
      PrefijoEsVertice(v, p, 0);
      assert p[..0] == [];
      assert (p + q)[0] == p[0] && (p + q)[1..] == p[1..] + q;
      ReemplazoCompuesto(Hijo(v, p[0]), p[1..], q, s);
    } else {
      assert p + q == q;
    }
  }

  lemma {:induction false} ReemplazoDoble<P>(v: Vertice<P>, p: Ruta, s: Vertice<P>, t: Vertice<P>)
    ensures ReemplazaEn(ReemplazaEn(v, p, s), p, t) == ReemplazaEn(v, p, t)
    decreases |p|
  {
    if p != [] && v.Vertice? {
      ReemplazoDoble(Hijo(v, p[0]), p[1..], s, t);
    }
  }

  lemma {:induction false} ReemplazoMismo<P>(v: Vertice<P>, p: Ruta)
    ensures ReemplazaEn(v, p, SubarbolEn(v, p)) == v
    decreases |p|
  {
    if p != [] && v.Vertice? {
      ReemplazoMismo(Hijo(v, p[0]), p[1..]);
    }
  }

  // ---------------------------------------------------------------------
  // Deletion

  /** `maximoensubarbol`: follow right children to a vertex without one.  On
      an ordered subtree it holds the maximum, and nothing follows it in
      in-order. */
  function MaximoEnSubarbol<P>(v: Vertice<P>): (m: Ruta)
    requires v.Vertice?
    ensures EsVertice(v, m) && SubarbolEn(v, m).derecho.Nulo?
    ensures Despues(v, m) == []
    ensures EsABB(v) ==> forall y :: y in Elementos(v) ==> y <= SubarbolEn(v, m).elemento
    decreases Tamano(v)
  {
    if v.derecho.Nulo? then []
    else
      var q := MaximoEnSubarbol(v.derecho);
      assert ([true] + q)[0] == true && ([true] + q)[1..] == q;
      [true] + q
  }

  /** `intercambiaEliminable(vertice)`: for a vertex with two children, swap
      its element with that of the maximum of its left subtree and return
      the handle of that descendant, which has no right child. */
  function IntercambiaEliminable<P>(t: Vertice<P>, p: Ruta): (r: (Vertice<P>, Ruta))
    requires EsVertice(t, p)
    requires SubarbolEn(t, p).izquierdo.Vertice? && SubarbolEn(t, p).derecho.Vertice?
    ensures var (t2, q) := r;
      var s := SubarbolEn(t, p);
      var m := SubarbolEn(s.izquierdo, MaximoEnSubarbol(s.izquierdo));
      EsVertice(t2, q) && SubarbolEn(t2, q).derecho.Nulo? && EsVertice(t2, p)
      && SubarbolEn(t2, q).elemento == s.elemento
      && SubarbolEn(t2, p).elemento == m.elemento
  {
    var s := SubarbolEn(t, p);
    var m := MaximoEnSubarbol(s.izquierdo);
    var mv := SubarbolEn(s.izquierdo, m);
    var s2 := Vertice(ReemplazaEn(s.izquierdo, m, mv.(elemento := s.elemento)), mv.elemento, s.dato, s.derecho);
    var t2 := ReemplazaEn(t, p, s2);
    var q := p + ([false] + m);
    SubarbolReemplazado(t, p, s2);
    SubarbolCompuesto(t2, p, [false] + m);
    assert ([false] + m)[0] == false && ([false] + m)[1..] == m;
    SubarbolReemplazado(s.izquierdo, m, mv.(elemento := s.elemento));
    (t2, q)
  }

  /** `eliminaVertice(vertice)`: a vertex with at most one child is replaced
      by that child (or by nothing), at its parent's matching side or as
      the root. */
  function EliminaVertice<P>(t: Vertice<P>, q: Ruta): (r: Vertice<P>)
    requires EsVertice(t, q)
    requires SubarbolEn(t, q).izquierdo.Nulo? || SubarbolEn(t, q).derecho.Nulo?
    ensures var s := SubarbolEn(t, q);
      SubarbolEn(r, q) == (if s.derecho.Nulo? then s.izquierdo else s.derecho)
  {
    var s := SubarbolEn(t, q);
    var hijo := if s.derecho.Nulo? then s.izquierdo else s.derecho;
    SubarbolReemplazado(t, q, hijo);
    ReemplazaEn(t, q, hijo)
  }

  /** Splicing out a vertex with at most one child takes its element out of
      the in-order sequence, right after its left stretch. */
  lemma SinRaizEnOrden<P>(t: Vertice<P>, p: Ruta) returns (k: nat)
    requires EsVertice(t, p)
    requires SubarbolEn(t, p).izquierdo.Nulo? || SubarbolEn(t, p).derecho.Nulo?
    ensures k == |Antes(t, p)| + |EnOrden(SubarbolEn(t, p).izquierdo)| && k < |EnOrden(t)|
    ensures EnOrden(t)[k] == SubarbolEn(t, p).elemento
    ensures EnOrden(EliminaVertice(t, p)) == SinPosicion(EnOrden(t), k)
  {
    var s := SubarbolEn(t, p);
    var hijo := if s.derecho.Nulo? then s.izquierdo else s.derecho;
    var A, L, R, D := Antes(t, p), EnOrden(s.izquierdo), EnOrden(s.derecho), Despues(t, p);
    k := |A| + |L|;
    EnOrdenReemplazo(t, p, hijo);
    assert EliminaVertice(t, p) == ReemplazaEn(t, p, hijo);
    assert EnOrden(s) == L + [s.elemento] + R;
    assert EnOrden(hijo) == L + R by {
      if s.derecho.Nulo? {
        assert R == [];
      } else {
        assert L == [];
      }
    }
    SinPosicionCentro(A, L, s.elemento, R, D);
  }

  /** The whole deletion of the vertex at `p`: through the predecessor swap
      when it has two children, directly otherwise. */
  function EliminaEn<P>(t: Vertice<P>, p: Ruta): Vertice<P>
    requires EsVertice(t, p)
  {
    var s := SubarbolEn(t, p);
    if s.izquierdo.Vertice? && s.derecho.Vertice? then
      var (t2, q) := IntercambiaEliminable(t, p);
      EliminaVertice(t2, q)
    else EliminaVertice(t, p)
  }

  /** Splicing out the maximum of a subtree takes the last in-order element. */
  lemma MaximoEnOrden<P>(l: Vertice<P>)
    requires l.Vertice?
    ensures var m := MaximoEnSubarbol(l);
      EnOrden(l) == EnOrden(ReemplazaEn(l, m, SubarbolEn(l, m).izquierdo)) + [SubarbolEn(l, m).elemento]
  {
    var m := MaximoEnSubarbol(l);
    var mv := SubarbolEn(l, m);
    EnOrdenReemplazo(l, m, mv.izquierdo);
  }

  /** With two children, the swap followed by the splice amounts to putting
      the left maximum at the vertex and splicing the maximum out below. */
  lemma IntercambioEstructura<P>(t: Vertice<P>, p: Ruta)
    requires EsVertice(t, p)
    requires SubarbolEn(t, p).izquierdo.Vertice? && SubarbolEn(t, p).derecho.Vertice?
    ensures var s := SubarbolEn(t, p);
      var m := MaximoEnSubarbol(s.izquierdo);
      var mv := SubarbolEn(s.izquierdo, m);
      EliminaEn(t, p) == ReemplazaEn(t, p, Vertice(ReemplazaEn(s.izquierdo, m, mv.izquierdo), mv.elemento, s.dato, s.derecho))
  {
    var s := SubarbolEn(t, p);
    var (t2, q) := IntercambiaEliminable(t, p);
    var m := MaximoEnSubarbol(s.izquierdo);
    var mv := SubarbolEn(s.izquierdo, m);
    var l2 := ReemplazaEn(s.izquierdo, m, mv.(elemento := s.elemento));
    var s2 := Vertice(l2, mv.elemento, s.dato, s.derecho);
    assert t2 == ReemplazaEn(t, p, s2);
    var c := mv.izquierdo;
    SubarbolReemplazado(t, p, s2);
    assert ([false] + m)[0] == false && ([false] + m)[1..] == m;
    SubarbolReemplazado(s.izquierdo, m, mv.(elemento := s.elemento));
    SubarbolCompuesto(t2, p, [false] + m);
    ReemplazoCompuesto(t2, p, [false] + m, c);
    var inner := ReemplazaEn(s2, [false] + m, c);
    assert inner == Vertice(ReemplazaEn(l2, m, c), mv.elemento, s.dato, s.derecho);
    ReemplazoDoble(s.izquierdo, m, mv.(elemento := s.elemento), c);
    ReemplazoDoble(t, p, s2, inner);
  }

  /** Deleting the vertex at `p` takes exactly its element out of the
      in-order sequence, at some position holding that element. */
  lemma EliminaEnEnOrden<P>(t: Vertice<P>, p: Ruta) returns (k: nat)
    requires EsVertice(t, p)
    ensures k < |EnOrden(t)| && EnOrden(t)[k] == SubarbolEn(t, p).elemento
    ensures EnOrden(EliminaEn(t, p)) == SinPosicion(EnOrden(t), k)
  {
    var s := SubarbolEn(t, p);
    if s.izquierdo.Vertice? && s.derecho.Vertice? {
      k := DosHijosEnOrden(t, p);
    } else {
      k := SinRaizEnOrden(t, p);
    }
  }

  /** The case of a vertex with two children: its element gives way to the
      maximum of its left subtree. */
  lemma DosHijosEnOrden<P>(t: Vertice<P>, p: Ruta) returns (k: nat)
    requires EsVertice(t, p)
    requires SubarbolEn(t, p).izquierdo.Vertice? && SubarbolEn(t, p).derecho.Vertice?
    ensures k < |EnOrden(t)| && EnOrden(t)[k] == SubarbolEn(t, p).elemento
    ensures EnOrden(EliminaEn(t, p)) == SinPosicion(EnOrden(t), k)
  {
    var s := SubarbolEn(t, p);
    var m := MaximoEnSubarbol(s.izquierdo);
    var mv := SubarbolEn(s.izquierdo, m);
    var l3 := ReemplazaEn(s.izquierdo, m, mv.izquierdo);
    var inner := Vertice(l3, mv.elemento, s.dato, s.derecho);
    var A, X, R, D := Antes(t, p), EnOrden(l3), EnOrden(s.derecho), Despues(t, p);
    var u := EnOrden(t);
    assert u == (A + (X + [mv.elemento])) + [s.elemento] + (R + D) by {
      MaximoEnOrden(s.izquierdo);
      EnOrdenReemplazo(t, p, inner);
      assert EnOrden(s) == (X + [mv.elemento]) + [s.elemento] + R;
    }
    assert EnOrden(EliminaEn(t, p)) == (A + (X + [mv.elemento])) + (R + D) by {
      IntercambioEstructura(t, p);
      EnOrdenReemplazo(t, p, inner);
    }
    k := |A + (X + [mv.elemento])|;
    SinPosicionMedio(u, A + (X + [mv.elemento]), s.elemento, R + D);
  }

  /** `elimina(e)`: null or an absent element leaves the tree as it is;
      otherwise the count drops by one and the found vertex is deleted. */
  function Elimina<P>(a: Arbol<P>, e: Option<int>): Arbol<P>
  {
    if e.None? then a
    else match BuscaABB(a.raiz, e.value)
      case None => a
      case Some(p) => Arbol(EliminaEn(a.raiz, p), a.elementos - 1)
  }

  /** Deletion of a present element removes exactly one copy of it from the
      in-order sequence, keeps the ordering and lowers the count by one; a
      null or absent element changes nothing. */
  lemma EliminaCorrecto<P>(a: Arbol<P>, e: Option<int>)
    requires EsABB(a.raiz) && Contado(a)
    ensures var b := Elimina(a, e);
      EsABB(b.raiz) && Contado(b)
      && (e.None? || e.value !in Elementos(a.raiz) ==> b == a)
      && (e.Some? && e.value in Elementos(a.raiz) ==>
            b.elementos == a.elementos - 1
            && Elementos(b.raiz) == Elementos(a.raiz) - multiset{e.value}
            && exists k :: 0 <= k < |EnOrden(a.raiz)| && EnOrden(a.raiz)[k] == e.value
                           && EnOrden(b.raiz) == SinPosicion(EnOrden(a.raiz), k))
  {
    if e.Some? && e.value in Elementos(a.raiz) {
      var p := BuscaABB(a.raiz, e.value).value;
      var b := Elimina(a, e);
      assert b.raiz == EliminaEn(a.raiz, p);
      var k := EliminaEnEnOrden(a.raiz, p);
      var u, w := EnOrden(a.raiz), EnOrden(b.raiz);
      assert Elementos(b.raiz) == Elementos(a.raiz) - multiset{e.value} by {
        RecorridosCompletos(a.raiz);
        RecorridosCompletos(b.raiz);
        SinPosicionMultiset(u, k);
      }
      assert EsABB(b.raiz) by {
        ABBSiiEnOrdenOrdenado(a.raiz);
        OrdenadaSinPosicion(u, k);
        ABBSiiEnOrdenOrdenado(b.raiz);
      }
      assert Contado(b) by {
        RecorridosLongitud(a.raiz);
        RecorridosLongitud(b.raiz);
      }
    }
  }

  // ---------------------------------------------------------------------
  // Rotations

  /** The right rotation of a subtree: its left child takes its place. */
  function RotaDerecha<P>(v: Vertice<P>): (r: Vertice<P>)
    ensures EnOrden(r) == EnOrden(v)
    ensures v.Vertice? && v.izquierdo.Vertice? ==>
              r.Vertice? && r.elemento == v.izquierdo.elemento && r.derecho.Vertice?
              && r.derecho.elemento == v.elemento && r.derecho.izquierdo == v.izquierdo.derecho
    ensures (v.Nulo? || v.izquierdo.Nulo?) ==> r == v
  {
    match v
    case Nulo => v
    case Vertice(k, e, x, d) =>
      match k
      case Nulo => v
      case Vertice(ki, ke, kx, kd) => Vertice(ki, ke, kx, Vertice(kd, e, x, d))
  }

  /** The left rotation of a subtree: its right child takes its place. */
  function RotaIzquierda<P>(v: Vertice<P>): (r: Vertice<P>)
    ensures EnOrden(r) == EnOrden(v)
    ensures v.Vertice? && v.derecho.Vertice? ==>
              r.Vertice? && r.elemento == v.derecho.elemento && r.izquierdo.Vertice?
              && r.izquierdo.elemento == v.elemento && r.izquierdo.derecho == v.derecho.izquierdo
    ensures (v.Nulo? || v.derecho.Nulo?) ==> r == v
  {
    match v
    case Nulo => v
    case Vertice(i, e, x, j) =>
      match j
      case Nulo => v
      case Vertice(ji, je, jx, jd) => Vertice(Vertice(i, e, x, ji), je, jx, jd)
  }

  /** Rotations keep the elements and the size. */
  lemma RotacionesConservan<P>(v: Vertice<P>)
    ensures Elementos(RotaDerecha(v)) == Elementos(v) && Tamano(RotaDerecha(v)) == Tamano(v)
    ensures Elementos(RotaIzquierda(v)) == Elementos(v) && Tamano(RotaIzquierda(v)) == Tamano(v)
  {
    RecorridosCompletos(v);
    RecorridosCompletos(RotaDerecha(v));
    RecorridosCompletos(RotaIzquierda(v));
    RecorridosLongitud(v);
    RecorridosLongitud(RotaDerecha(v));
    RecorridosLongitud(RotaIzquierda(v));
  }

  /** `giraDerecha(vertice)`: nothing for a null handle or without a left
      child; otherwise the left child takes the vertex's place (the parent's
      side is found by identity), and the in-order sequence is unchanged. */
  function GiraDerecha<P>(a: Arbol<P>, h: Option<Ruta>): (r: Arbol<P>)
    requires h.Some? ==> EsVertice(a.raiz, h.value)
    ensures h.None? ==> r == a
    ensures r.elementos == a.elementos
    ensures EnOrden(r.raiz) == EnOrden(a.raiz)
    ensures h.Some? ==> var p := h.value;
      && (SubarbolEn(a.raiz, p).izquierdo.Nulo? ==> r == a)
      && SubarbolEn(r.raiz, p) == RotaDerecha(SubarbolEn(a.raiz, p))
      && SoloCambiaEn(a.raiz, r.raiz, p)
  {
    match h
    case None => a
    case Some(p) =>
      var s := SubarbolEn(a.raiz, p);
      if s.izquierdo.Nulo? then a
      else
        EnOrdenReemplazo(a.raiz, p, RotaDerecha(s));
        SubarbolReemplazado(a.raiz, p, RotaDerecha(s));
        ReemplazoSoloCambiaEn(a.raiz, p, RotaDerecha(s));
        Arbol(ReemplazaEn(a.raiz, p, RotaDerecha(s)), a.elementos)
  }

  /** `giraIzquierda(vertice)` with the parent's side found by identity, as
      in `giraDerecha`: nothing for a null handle or without a right child;
      otherwise the right child takes the vertex's place and the in-order
      sequence is unchanged.  This is the rotation the rest of the model
      uses. */
  function GiraIzquierda<P>(a: Arbol<P>, h: Option<Ruta>): (r: Arbol<P>)
    requires h.Some? ==> EsVertice(a.raiz, h.value)
    ensures h.None? ==> r == a
    ensures r.elementos == a.elementos
    ensures EnOrden(r.raiz) == EnOrden(a.raiz)
    ensures h.Some? ==> var p := h.value;
      && (SubarbolEn(a.raiz, p).derecho.Nulo? ==> r == a)
      && SubarbolEn(r.raiz, p) == RotaIzquierda(SubarbolEn(a.raiz, p))
      && SoloCambiaEn(a.raiz, r.raiz, p)
  {
    match h
    case None => a
    case Some(p) =>
      var s := SubarbolEn(a.raiz, p);
      if s.derecho.Nulo? then a
      else
        EnOrdenReemplazo(a.raiz, p, RotaIzquierda(s));
        SubarbolReemplazado(a.raiz, p, RotaIzquierda(s));
        ReemplazoSoloCambiaEn(a.raiz, p, RotaIzquierda(s));
        Arbol(ReemplazaEn(a.raiz, p, RotaIzquierda(s)), a.elementos)
  }

  /** `giraIzquierda(vertice)` as written: the parent's side is decided by
      comparing the parent's left child's ELEMENT with the vertex's.  When
      the vertex is a right child whose left sibling holds an equal element,
      the rotated subtree overwrites the sibling and the parent's right slot
      still reaches the (relinked) vertex. */
  function GiraIzquierdaEscrita<P>(a: Arbol<P>, p: Ruta): (r: Arbol<P>)
    requires EsVertice(a.raiz, p)
    ensures r.elementos == a.elementos
    ensures SubarbolEn(a.raiz, p).derecho.Nulo? ==> r == a
  {
    var j := SubarbolEn(a.raiz, p);
    if j.derecho.Nulo? then a
    else if p == [] || !p[|p| - 1] then GiraIzquierda(a, Some(p))
    else
      var pp := p[..|p| - 1];
      PrefijoEsVertice(a.raiz, p, |p| - 1);
      var padre := SubarbolEn(a.raiz, pp);
      if padre.izquierdo.Vertice? && padre.izquierdo.elemento == j.elemento then
        var relinked := Vertice(j.izquierdo, j.elemento, j.dato, j.derecho.izquierdo);
        Arbol(ReemplazaEn(a.raiz, pp, Vertice(RotaIzquierda(j), padre.elemento, padre.dato, relinked)), a.elementos)
      else GiraIzquierda(a, Some(p))
  }

  /** Whenever the parent's left child is not an equal-element sibling, the
      written rotation is the identity-based one. */
  lemma GiraIzquierdaEscritaSinEmpates<P>(a: Arbol<P>, p: Ruta)
    requires EsVertice(a.raiz, p)
    requires p != [] && p[|p| - 1]
    requires var hermano := Hijo(SubarbolEn(a.raiz, p[..|p| - 1]), false);
             hermano.Nulo? || hermano.elemento != SubarbolEn(a.raiz, p).elemento
    ensures GiraIzquierdaEscrita(a, p) == GiraIzquierda(a, Some(p))
  {
    PrefijoEsVertice(a.raiz, p, |p| - 1);
  }

  /** A concrete input on which the written rotation breaks the ordering:
      three equal elements, rotation at the right child. */
  lemma GiraIzquierdaEscritaRompeOrden()
    ensures var a := Arbol(Vertice(Vertice(Nulo, 5, (), Nulo), 5, (),
                                   Vertice(Nulo, 5, (), Vertice(Nulo, 6, (), Nulo))), 4);
      EsABB(a.raiz) && EsVertice(a.raiz, [true])
      && EnOrden(a.raiz) == [5, 5, 5, 6]
      && EnOrden(GiraIzquierdaEscrita(a, [true]).raiz) == [5, 6, 5, 5]
      && !EsABB(GiraIzquierdaEscrita(a, [true]).raiz)
      && EnOrden(GiraIzquierda(a, Some([true])).raiz) == [5, 5, 5, 6]
  {
    var h5: Vertice<()> := Vertice(Nulo, 5, (), Nulo);
    var h6: Vertice<()> := Vertice(Nulo, 6, (), Nulo);
    var j := Vertice(Nulo, 5, (), h6);
    var a := Arbol(Vertice(h5, 5, (), j), 4);
    assert [true][1..] == [];
    assert SubarbolEn(a.raiz, [true]) == j;
    assert [true][..0] == [];
    var b := GiraIzquierdaEscrita(a, [true]);
    assert b.raiz == Vertice(Vertice(h5, 6, (), Nulo), 5, (), Vertice(Nulo, 5, (), Nulo));
    assert EnOrden(a.raiz) == [5, 5, 5, 6];
    assert EnOrden(b.raiz) == [5, 6, 5, 5];
    ABBSiiEnOrdenOrdenado(a.raiz);
    ABBSiiEnOrdenOrdenado(b.raiz);
    assert EnOrden(b.raiz)[1] > EnOrden(b.raiz)[2];
  }

  /** The public `giraDerecha` and `giraIzquierda` of the AVL and the
      red-black trees: both always throw UnsupportedOperationException and
      leave the tree as it is, whatever the vertex. */
  function GiraNoSoportada<P>(a: Arbol<P>, h: Option<Ruta>, derecha: bool): (r: Outcome)
    ensures r.Fail? && r.error == OperacionNoSoportada
  {
    Fail(OperacionNoSoportada)
  }

  // ---------------------------------------------------------------------
  // The in-order cursor

  /** The elements a stack of pending vertices still has to yield: for each
      vertex from the top down, its element and then its right subtree. */
  function Pendiente<P>(pila: seq<Vertice<P>>): seq<int>
  {
    if pila == [] then []
    else
      var v := pila[|pila| - 1];
      (if v.Vertice? then [v.elemento] + EnOrden(v.derecho) else []) + Pendiente(pila[..|pila| - 1])
  }

  /** Pushing a vertex leaves its left subtree and then itself pending. */
  lemma PendienteMete<P>(pila: seq<Vertice<P>>, v: Vertice<P>)
    requires v.Vertice?
    ensures EnOrden(v.izquierdo) + Pendiente(pila + [v]) == EnOrden(v) + Pendiente(pila)
  {
    assert (pila + [v])[..|pila|] == pila;
    var L, D, R := EnOrden(v.izquierdo), EnOrden(v.derecho), Pendiente(pila);
    assert Pendiente(pila + [v]) == [v.elemento] + D + R;
    assert EnOrden(v) == L + [v.elemento] + D;
    ReagrupaIzquierda(L, [v.elemento], D, R);
  }

  /** `Iterador`: a stack holding the pending ancestors on the left spine. */
  class Iterador<P> {
    var pila: seq<Vertice<P>>

    ghost predicate Valido()
      reads this
    {
      forall i :: 0 <= i < |pila| ==> pila[i].Vertice?
    }

    /** Push the vertex and its left spine. */
    static method MeteEspina(pila0: seq<Vertice<P>>, v: Vertice<P>) returns (pila: seq<Vertice<P>>)
      requires forall i :: 0 <= i < |pila0| ==> pila0[i].Vertice?
      ensures forall i :: 0 <= i < |pila| ==> pila[i].Vertice?
      ensures Pendiente(pila) == EnOrden(v) + Pendiente(pila0)
    {
      pila := pila0;
      var aux := v;
      while aux.Vertice?
        invariant forall i :: 0 <= i < |pila| ==> pila[i].Vertice?
        invariant EnOrden(aux) + Pendiente(pila) == EnOrden(v) + Pendiente(pila0)
        decreases Tamano(aux)
      {
        PendienteMete(pila, aux);
        pila := pila + [aux];
        aux := aux.izquierdo;
      }
    }

    /** Starts with the root's left spine on the stack: everything is pending. */
    constructor (raiz: Vertice<P>)
      ensures Valido() && Pendiente(pila) == EnOrden(raiz)
    {
      var s := MeteEspina([], raiz);
      pila := s;
    }

    /** `hasNext()`: the stack is not empty, that is, something is pending. */
    function HayMas(): (b: bool)
      reads this
      requires Valido()
      ensures b <==> Pendiente(pila) != []
    {
      if |pila| == 0 then false
      else
        assert pila[|pila| - 1].Vertice?;
        true
    }

    /** `next()`: pop a vertex, yield its element, push its right child's
        left spine; the result is the next pending element. */
    method Siguiente() returns (x: int)
      requires Valido() && HayMas()
      modifies this
      ensures Valido()
      ensures [x] + Pendiente(pila) == old(Pendiente(pila))
    {
      var aux := pila[|pila| - 1];
      pila := pila[..|pila| - 1];
      x := aux.elemento;
      pila := MeteEspina(pila, aux.derecho);
    }
  }

  /** Draining the cursor yields `dfsInOrder`'s sequence, which on an
      ordered tree is non-decreasing. */
  method RecorreConIterador<P>(raiz: Vertice<P>) returns (s: seq<int>)
    ensures s == EnOrden(raiz)
    ensures EsABB(raiz) ==> Ordenada(s)
  {
    var it := new Iterador(raiz);
    s := [];
    while it.HayMas()
      invariant it.Valido()
      invariant s + Pendiente(it.pila) == EnOrden(raiz)
      decreases |Pendiente(it.pila)|
    {
      var x := it.Siguiente();
      s := s + [x];
    }
    ABBSiiEnOrdenOrdenado(raiz);
  }
}
