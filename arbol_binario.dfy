/** Binary trees: vertices, navigation by vertex handle, heights and depths,
    pre-order search and recursive structural equality.

    A vertex is the value of the subtree it roots.  Its payload `dato` is
    what a balancing strategy adds to the plain vertex: nothing (`()`), a
    cached height, or a colour.  A vertex handle is the path that leads to
    it from the root (`false` = left, `true` = right), so the vertex's
    parent is the path without its last step. */
module ArbolBinario {
  import opened Comun

  datatype Vertice<P> = Nulo | Vertice(izquierdo: Vertice<P>, elemento: int, dato: P, derecho: Vertice<P>)

  /** The tree object: its root and its element counter. */
  datatype Arbol<P> = Arbol(raiz: Vertice<P>, elementos: int)

  /** A vertex handle: the steps from the root, `false` left, `true` right. */
  type Ruta = seq<bool>

  function Tamano<P>(v: Vertice<P>): nat
  {
    match v
    case Nulo => 0
    case Vertice(i, _, _, d) => Tamano(i) + 1 + Tamano(d)
  }

  function Elementos<P>(v: Vertice<P>): multiset<int>
  {
    match v
    case Nulo => multiset{}
    case Vertice(i, e, _, d) => Elementos(i) + multiset{e} + Elementos(d)
  }

  lemma {:induction false} TamanoElementos<P>(v: Vertice<P>)
    ensures |Elementos(v)| == Tamano(v)
  {
    match v
    case Nulo =>
    case Vertice(i, _, _, d) => TamanoElementos(i); TamanoElementos(d);
  }

  /** The counter agrees with the number of vertices. */
  ghost predicate Contado<P>(a: Arbol<P>)
  {
    a.elementos == Tamano(a.raiz)
  }

  // ---------------------------------------------------------------------
  // Heights and depths

  /** Height of a vertex: -1 for an absent vertex, otherwise one more than
      the taller child. */
  function Altura<P>(v: Vertice<P>): (h: int)
    ensures h >= -1
    ensures h == -1 <==> v.Nulo?
  {
    match v
    case Nulo => -1
    case Vertice(i, _, _, d) => 1 + Max(Altura(i), Altura(d))
  }

  function Potencia2(n: nat): nat
  {
    if n == 0 then 1 else 2 * Potencia2(n - 1)
  }

  /** A tree of height h has at least h + 1 and fewer than 2^(h+1) vertices. */
  lemma {:induction false} AlturaCotas<P>(v: Vertice<P>)
    ensures -1 <= Altura(v) < Tamano(v)
    ensures Tamano(v) < Potencia2(Altura(v) + 1)
  {
    match v
    case Nulo =>
    case Vertice(i, _, _, d) =>
      AlturaCotas(i);
      AlturaCotas(d);
      MonotonaPotencia2(Altura(i) + 1, Altura(v));
      MonotonaPotencia2(Altura(d) + 1, Altura(v));
  }

  lemma {:induction false} MonotonaPotencia2(a: nat, b: nat)
    requires a <= b
    ensures Potencia2(a) <= Potencia2(b)
  {
    if a < b { MonotonaPotencia2(a, b - 1); }
  }

  /** The tree's height: -1 when it is empty, otherwise the root's. */
  function AlturaArbol<P>(a: Arbol<P>): (h: int)
    ensures a.raiz.Nulo? <==> h == -1
    ensures h == Altura(a.raiz)
  {
    if a.raiz.Nulo? then -1 else Altura(a.raiz)
  }

  // ---------------------------------------------------------------------
  // Vertex handles

  function Hijo<P>(v: Vertice<P>, derecho: bool): Vertice<P>
  {
    match v
    case Nulo => Nulo
    case Vertice(i, _, _, d) => if derecho then d else i
  }

  /** The subtree a path leads to (`Nulo` when it leaves the tree). */
  function SubarbolEn<P>(v: Vertice<P>, p: Ruta): Vertice<P>
    decreases |p|
  {
    if p == [] then v else SubarbolEn(Hijo(v, p[0]), p[1..])
  }

  /** Every path from an empty subtree leads nowhere. */
  lemma {:induction false} NuloSinVertices<P>(p: Ruta)
    ensures SubarbolEn<P>(Nulo, p) == Nulo
    decreases |p|
  {
    if p != [] {
      NuloSinVertices<P>(p[1..]);
    }
  }

  /** The tree with the subtree a path leads to replaced by `s`. */
  function ReemplazaEn<P>(v: Vertice<P>, p: Ruta, s: Vertice<P>): Vertice<P>
    decreases |p|
  {
    if p == [] then s
    else match v
      case Nulo => Nulo
      case Vertice(i, e, x, d) =>
        if p[0] then Vertice(i, e, x, ReemplazaEn(d, p[1..], s))
        else Vertice(ReemplazaEn(i, p[1..], s), e, x, d)
  }

  ghost predicate EsVertice<P>(v: Vertice<P>, p: Ruta)
  {
    SubarbolEn(v, p).Vertice?
  }

  /** One more step down a path. */
  lemma {:induction false} SubarbolPaso<P>(v: Vertice<P>, p: Ruta, b: bool)
    ensures SubarbolEn(v, p + [b]) == Hijo(SubarbolEn(v, p), b)
    decreases |p|
  {
    if p == [] {
      assert [] + [b] == [b];
      assert ([b])[1..] == [];
    } else {
      assert (p + [b])[0] == p[0];
      assert (p + [b])[1..] == p[1..] + [b];
      SubarbolPaso(Hijo(v, p[0]), p[1..], b);
    }
  }

  /** A path to a vertex passes only through vertices. */
  lemma {:induction false} PrefijoEsVertice<P>(v: Vertice<P>, p: Ruta, k: nat)
    requires EsVertice(v, p) && k <= |p|
    ensures EsVertice(v, p[..k])
    decreases |p|
  {
    if k < |p| {
      var q := p[..|p| - 1];
      assert p == q + [p[|p| - 1]];
      SubarbolPaso(v, q, p[|p| - 1]);
      assert q[..k] == p[..k];
      PrefijoEsVertice(v, q, k);
    } else {
      assert p[..k] == p;
    }
  }

  /** Replacing the subtree at a vertex's path puts `s` exactly there. */
  lemma {:induction false} SubarbolReemplazado<P>(v: Vertice<P>, p: Ruta, s: Vertice<P>)
    requires p == [] || EsVertice(v, p)
    ensures SubarbolEn(ReemplazaEn(v, p, s), p) == s
    decreases |p|
  {
    if p != [] {
      PrefijoEsVertice(v, p, 1);
      assert p[..1] == [p[0]];
      assert SubarbolEn(v, [p[0]]) == SubarbolEn(Hijo(v, p[0]), []);
      assert v.Vertice?;
      if p[1..] != [] {
        assert EsVertice(Hijo(v, p[0]), p[1..]);
      }
      SubarbolReemplazado(Hijo(v, p[0]), p[1..], s);
    }
  }

  /** `u` is `t` changed at most inside the subtree at `p`: every subtree off
      the path is the same, and every vertex on the way down to `p` keeps
      its element and payload. */
  ghost predicate SoloCambiaEn<P>(t: Vertice<P>, u: Vertice<P>, p: Ruta)
  {
    && (forall q :: !(q <= p) && !(p <= q) ==> SubarbolEn(u, q) == SubarbolEn(t, q))
    && (forall k :: 0 <= k < |p| && EsVertice(t, p[..k]) ==>
          var x, y := SubarbolEn(t, p[..k]), SubarbolEn(u, p[..k]);
          y.Vertice? && y.elemento == x.elemento && y.dato == x.dato)
  }

  /** Replacing at `p` leaves every subtree off the path alone. */
  lemma {:induction false} ReemplazoFuera<P>(v: Vertice<P>, p: Ruta, q: Ruta, s: Vertice<P>)
    requires !(q <= p) && !(p <= q)
    ensures SubarbolEn(ReemplazaEn(v, p, s), q) == SubarbolEn(v, q)
    decreases |p|
  {
    assert p != [] && q != [];
    if v.Nulo? {
      NuloSinVertices<P>(q);
    } else if p[0] == q[0] {
      assert p == [p[0]] + p[1..] && q == [q[0]] + q[1..];
      ReemplazoFuera(Hijo(v, p[0]), p[1..], q[1..], s);
    }
  }

  /** Replacing at `p` keeps the vertices on the way down to `p`. */
  lemma {:induction false} ReemplazoEncima<P>(v: Vertice<P>, p: Ruta, q: Ruta, s: Vertice<P>)
    requires q < p && EsVertice(v, q)
    ensures var x, y := SubarbolEn(v, q), SubarbolEn(ReemplazaEn(v, p, s), q);
            y.Vertice? && y.elemento == x.elemento && y.dato == x.dato
    decreases |q|
  {
    if v.Nulo? {
      NuloSinVertices<P>(q);
    } else if q != [] {
      assert p[0] == q[0] && q[1..] < p[1..];
      ReemplazoEncima(Hijo(v, p[0]), p[1..], q[1..], s);
    }
  }

  /** Replacing at a path changes the tree only there. */
  lemma ReemplazoSoloCambiaEn<P>(v: Vertice<P>, p: Ruta, s: Vertice<P>)
    ensures SoloCambiaEn(v, ReemplazaEn(v, p, s), p)
  {
    forall q | !(q <= p) && !(p <= q)
      ensures SubarbolEn(ReemplazaEn(v, p, s), q) == SubarbolEn(v, q)
    {
      ReemplazoFuera(v, p, q, s);
    }
    forall k | 0 <= k < |p| && EsVertice(v, p[..k])
      ensures var x, y := SubarbolEn(v, p[..k]), SubarbolEn(ReemplazaEn(v, p, s), p[..k]);
              y.Vertice? && y.elemento == x.elemento && y.dato == x.dato
    {
      ReemplazoEncima(v, p, p[..k], s);
    }
  }

  /** Does the vertex have a parent?  Only the root has none. */
  function HayPadre(p: Ruta): bool
  {
    |p| > 0
  }

  function HayIzquierdo<P>(t: Vertice<P>, p: Ruta): bool
  {
    SubarbolEn(t, p).Vertice? && SubarbolEn(t, p).izquierdo.Vertice?
  }

  function HayDerecho<P>(t: Vertice<P>, p: Ruta): bool
  {
    SubarbolEn(t, p).Vertice? && SubarbolEn(t, p).derecho.Vertice?
  }

  /** `padre()`: the parent handle, or NoSuchElementException at the root.
      The parent is a vertex and this vertex is its child on the side of
      the last step. */
  function Padre<P>(t: Vertice<P>, p: Ruta): (r: Result<Ruta>)
    requires EsVertice(t, p)
    ensures r.Err? <==> !HayPadre(p)
    ensures r.Err? ==> r.error == ElementoInexistente
    ensures r.Ok? ==> EsVertice(t, r.value) && |r.value| + 1 == |p|
                      && Hijo(SubarbolEn(t, r.value), p[|p| - 1]) == SubarbolEn(t, p)
  {
    if |p| == 0 then Err(ElementoInexistente)
    else
      var q := p[..|p| - 1];
      assert p == q + [p[|p| - 1]];
      SubarbolPaso(t, q, p[|p| - 1]);
      Ok(q)
  }

  /** `izquierdo()`: the left child's handle, or NoSuchElementException. */
  function Izquierdo<P>(t: Vertice<P>, p: Ruta): (r: Result<Ruta>)
    requires EsVertice(t, p)
    ensures r.Err? <==> !HayIzquierdo(t, p)
    ensures r.Err? ==> r.error == ElementoInexistente
    ensures r.Ok? ==> EsVertice(t, r.value) && SubarbolEn(t, r.value) == SubarbolEn(t, p).izquierdo
                      && Padre(t, r.value) == Ok(p)
  {
    if !HayIzquierdo(t, p) then Err(ElementoInexistente)
    else
      SubarbolPaso(t, p, false);
      assert (p + [false])[..|p|] == p;
      Ok(p + [false])
  }

  /** `derecho()`: the right child's handle, or NoSuchElementException. */
  function Derecho<P>(t: Vertice<P>, p: Ruta): (r: Result<Ruta>)
    requires EsVertice(t, p)
    ensures r.Err? <==> !HayDerecho(t, p)
    ensures r.Err? ==> r.error == ElementoInexistente
    ensures r.Ok? ==> EsVertice(t, r.value) && SubarbolEn(t, r.value) == SubarbolEn(t, p).derecho
                      && Padre(t, r.value) == Ok(p)
  {
    if !HayDerecho(t, p) then Err(ElementoInexistente)
    else
      SubarbolPaso(t, p, true);
      assert (p + [true])[..|p|] == p;
      Ok(p + [true])
  }

  /** `profundidad()`: 0 without a parent, otherwise one more than the
      parent's; it is the length of the path from the root. */
  function Profundidad(p: Ruta): (r: nat)
    ensures r == |p|
    decreases |p|
  {
    if !HayPadre(p) then 0 else 1 + Profundidad(p[..|p| - 1])
  }

  /** `altura()` of a vertex of a plain tree: the height of its subtree,
      which bounds the depth of every vertex below it. */
  lemma {:induction false} AlturaAcotaProfundidad<P>(v: Vertice<P>, p: Ruta)
    requires EsVertice(v, p)
    ensures Profundidad(p) <= Altura(v)
    decreases |p|
  {
    if p != [] {
      PrefijoEsVertice(v, p, 0);
      assert p[..0] == [];
      AlturaAcotaProfundidad(Hijo(v, p[0]), p[1..]);
    }
  }

  // ---------------------------------------------------------------------
  // The downcast check and the tree-level accessors

  /** `vertice(h)`: a handle that is not one of this tree's vertices (here,
      the `null` handle) throws ClassCastException. */
  function VerticeDe(h: Option<Ruta>): (r: Result<Ruta>)
    ensures r.Ok? <==> h.Some?
    ensures r.Ok? ==> r.value == h.value
    ensures r.Err? ==> r.error == ConversionInvalida
  {
    match h
    case None => Err(ConversionInvalida)
    case Some(p) => Ok(p)
  }

  function EsVacia<P>(a: Arbol<P>): bool
  {
    a.raiz.Nulo?
  }

  /** `raiz()`: the root handle, or NoSuchElementException on an empty tree. */
  function Raiz<P>(a: Arbol<P>): (r: Result<Ruta>)
    ensures r.Err? <==> EsVacia(a)
    ensures r.Ok? ==> r.value == [] && EsVertice(a.raiz, r.value)
  {
    if a.raiz.Nulo? then Err(ElementoInexistente) else Ok([])
  }

  /** `limpia()`: the tree becomes empty with count 0. */
  function Limpia<P>(a: Arbol<P>): (r: Arbol<P>)
    ensures EsVacia(r) && r.elementos == 0 && Contado(r)
    ensures Raiz(r) == Err(ElementoInexistente)
    ensures Elementos(r.raiz) == multiset{}
  {
    Arbol(Nulo, 0)
  }

  // ---------------------------------------------------------------------
  // Search

  /** The private pre-order search: the vertex itself, then its left
      subtree, then its right subtree. */
  function BuscaEn<P>(v: Vertice<P>, x: int): (r: Option<Ruta>)
    ensures r.Some? ==> EsVertice(v, r.value) && SubarbolEn(v, r.value).elemento == x
    ensures r.None? <==> x !in Elementos(v)
  {
    match v
    case Nulo => None
    case Vertice(i, e, _, d) =>
      if e == x then Some([])
      else match BuscaEn(i, x)
        case Some(q) =>
          assert ([false] + q)[0] == false && ([false] + q)[1..] == q;
          Some([false] + q)
        case None =>
          match BuscaEn(d, x)
          case Some(q) =>
            assert ([true] + q)[0] == true && ([true] + q)[1..] == q;
            Some([true] + q)
          case None => None
  }

  /** `busca(e)`: null on an empty tree or a null query, otherwise the
      pre-order search from the root. */
  function Busca<P>(a: Arbol<P>, e: Option<int>): (r: Option<Ruta>)
    ensures (a.raiz.Nulo? || e.None?) ==> r.None?
    ensures r.Some? ==> e.Some? && EsVertice(a.raiz, r.value)
                        && SubarbolEn(a.raiz, r.value).elemento == e.value
    ensures r.None? <==> (e.None? || e.value !in Elementos(a.raiz))
  {
    if a.raiz.Nulo? then None
    else if e.None? then None
    else BuscaEn(a.raiz, e.value)
  }

  /** `contiene(e)`: the search finds a vertex. */
  function Contiene<P>(a: Arbol<P>, e: Option<int>): (b: bool)
    ensures b <==> e.Some? && e.value in Elementos(a.raiz)
  {
    Busca(a, e).Some?
  }

  // ---------------------------------------------------------------------
  // Equality

  /** The private recursive `equals(v, v2)`: both absent, or equal elements
      and recursively equal left and right subtrees.  Payloads below the
      compared vertices are not looked at. */
  function Iguales<P>(a: Vertice<P>, b: Vertice<P>): bool
  {
    if a.Nulo? && b.Nulo? then true
    else if a.Nulo? || b.Nulo? then false
    else a.elemento == b.elemento && Iguales(a.izquierdo, b.izquierdo) && Iguales(a.derecho, b.derecho)
  }

  /** The shape and the elements of a tree, payloads dropped. */
  function Forma<P>(v: Vertice<P>): Vertice<()>
  {
    match v
    case Nulo => Nulo
    case Vertice(i, e, _, d) => Vertice(Forma(i), e, (), Forma(d))
  }

  lemma {:induction false} FormaTamano<P>(v: Vertice<P>)
    ensures Tamano(Forma(v)) == Tamano(v)
  {
    match v
    case Nulo =>
    case Vertice(i, _, _, d) => FormaTamano(i); FormaTamano(d);
  }

  /** Vertex equality holds exactly when the two trees have the same shape
      and the same element at every vertex. */
  lemma {:induction false} IgualesSiiMismaForma<P>(a: Vertice<P>, b: Vertice<P>)
    ensures Iguales(a, b) <==> Forma(a) == Forma(b)
  {
    match a
    case Nulo =>
    case Vertice(ai, _, _, ad) =>
      match b
      case Nulo =>
      case Vertice(bi, _, _, bd) =>
        IgualesSiiMismaForma(ai, bi);
        IgualesSiiMismaForma(ad, bd);
  }

  /** Tree `equals`: equal counts, and either both empty or equal roots
      under the vertex equality of the tree's kind. */
  function IgualesArbol<P>(a: Arbol<P>, b: Arbol<P>, igualesRaices: (Vertice<P>, Vertice<P>) -> bool): bool
  {
    if a.elementos != b.elementos then false
    else if a.elementos == 0 then true
    else igualesRaices(a.raiz, b.raiz)
  }

  /** For trees whose counts are right, tree equality with plain vertex
      equality means same shape and same elements. */
  lemma IgualesArbolSiiMismaForma<P>(a: Arbol<P>, b: Arbol<P>)
    requires Contado(a) && Contado(b)
    ensures IgualesArbol(a, b, Iguales) <==> Forma(a.raiz) == Forma(b.raiz)
  {
    IgualesSiiMismaForma(a.raiz, b.raiz);
    if Forma(a.raiz) == Forma(b.raiz) {
      FormaTamano(a.raiz);
      FormaTamano(b.raiz);
    }
  }
}
