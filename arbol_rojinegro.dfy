/** Red-black trees: ordered trees whose vertices are coloured so that no
    red vertex has a red child and every path from a vertex down to an
    empty subtree crosses the same number of black vertices; the root is
    black.  The payload of a vertex is its colour.

    `balanceoAgrega` walks up from the new red vertex: each of its steps
    looks at the vertex, its parent, its grandparent and its uncle, all
    inside the grandparent's subtree, so the walk is written as a descent
    that applies the step at each grandparent on the way back.  Likewise
    `balanceoElimina` moves a missing black up from the vertex that took
    the spliced one's place; each step looks inside the parent's subtree,
    so deletion returns, with each subtree, whether it is one black short,
    and the parent resolves it on the way back.  The phantom black leaf
    that the source hangs under a childless spliced vertex is the empty
    subtree that carries the missing black; it is gone at the end, as in
    the source. */
module ArbolRojinegro {
  import opened Comun
  import opened ArbolBinario
  import opened ArbolBinarioOrdenado

  // ---------------------------------------------------------------------
  // Colours and the invariant

  /** `esRojo(v)`: a non-null vertex coloured red. */
  function EsRojo(v: Vertice<Color>): bool
  {
    v.Vertice? && v.dato == Rojo
  }

  /** Repaint a vertex. */
  function Pinta(v: Vertice<Color>, c: Color): Vertice<Color>
    requires v.Vertice?
  {
    v.(dato := c)
  }

  /** The black vertices on the leftmost path down from the vertex. */
  ghost function AlturaNegra(v: Vertice<Color>): nat
  {
    match v
    case Nulo => 0
    case Vertice(i, _, c, _) => AlturaNegra(i) + (if c == Rojo then 0 else 1)
  }

  /** Every vertex is red or black, no red vertex has a red child, and both
      subtrees of every vertex have the same black height. */
  ghost predicate EsRN(v: Vertice<Color>)
  {
    match v
    case Nulo => true
    case Vertice(i, _, c, d) =>
      EsRN(i) && EsRN(d) && c != Ninguno
      && (c == Rojo ==> !EsRojo(i) && !EsRojo(d))
      && AlturaNegra(i) == AlturaNegra(d)
  }

  /** The class invariant: ordered, red-black, black root. */
  ghost predicate Valido(v: Vertice<Color>)
  {
    EsABB(v) && EsRN(v) && !EsRojo(v)
  }

  /** Every black height counts the black vertices of every path. */
  lemma {:induction false} AlturaNegraCamino(v: Vertice<Color>, p: Ruta)
    requires EsRN(v) && EsVertice(v, p)
    decreases |p|
    ensures AlturaNegra(v) >= AlturaNegra(SubarbolEn(v, p))
  {
    if p != [] {
      assert SubarbolEn(v, p) == SubarbolEn(Hijo(v, p[0]), p[1..]);
      AlturaNegraCamino(Hijo(v, p[0]), p[1..]);
    }
  }

  /** The height of a red-black tree is at most twice its black height, and
      it has at least 2^(black height) - 1 vertices: its height is
      logarithmic in its size. */
  lemma {:induction false} AlturaAcotada(v: Vertice<Color>)
    requires EsRN(v)
    ensures Altura(v) + 1 <= 2 * AlturaNegra(v) + (if EsRojo(v) then 1 else 0)
    ensures Potencia2(AlturaNegra(v)) <= Tamano(v) + 1
  {
    match v
    case Nulo =>
    case Vertice(i, _, c, d) =>
      AlturaAcotada(i);
      AlturaAcotada(d);
  }

  // ---------------------------------------------------------------------
  // Insertion

  /** The step of `balanceoAgrega` at grandparent `a` when the walk comes
      up its left subtree: `p` is the left child, `v` the child of `p` on
      the side the element went.  With `p` and `v` red: a red uncle `t` is
      painted black with `p`, and `a` red (the walk goes on from `a`);
      otherwise a crossed `v` is first rotated above `p`, and then the
      upper one of the two is painted black, `a` red, and `a` is rotated
      right. */
  function BalanceaIzquierdo(a: Vertice<Color>, x: int): (r: Vertice<Color>)
    requires a.Vertice?
    ensures r.Vertice? && EnOrden(r) == EnOrden(a)
  {
    var p := a.izquierdo;
    if !EsRojo(p) then a
    else
      var v := if x <= p.elemento then p.izquierdo else p.derecho;
      var t := a.derecho;
      if !EsRojo(v) then a
      else if EsRojo(t) then Vertice(Pinta(p, Negro), a.elemento, Rojo, Pinta(t, Negro))
      else
        var p2 := if x <= p.elemento then p else RotaIzquierda(p);
        RotaDerecha(Vertice(Pinta(p2, Negro), a.elemento, Rojo, t))
  }

  /** Mirror of `BalanceaIzquierdo` when the walk comes up the right
      subtree of `a`. */
  function BalanceaDerecho(a: Vertice<Color>, x: int): (r: Vertice<Color>)
    requires a.Vertice?
    ensures r.Vertice? && EnOrden(r) == EnOrden(a)
  {
    var p := a.derecho;
    if !EsRojo(p) then a
    else
      var v := if x <= p.elemento then p.izquierdo else p.derecho;
      var t := a.izquierdo;
      if !EsRojo(v) then a
      else if EsRojo(t) then Vertice(Pinta(t, Negro), a.elemento, Rojo, Pinta(p, Negro))
      else
        var p2 := if x <= p.elemento then RotaDerecha(p) else p;
        RotaIzquierda(Vertice(t, a.elemento, Rojo, Pinta(p2, Negro)))
  }

  /** `agrega` of the ordered tree with the new vertex red, and the steps of
      `balanceoAgrega` applied at every grandparent on the way back.  The
      source tests only the triple whose bottom is the current red vertex
      and stops after a rotation or at a black parent; here every triple on
      the path is tested.  On a valid tree the other triples have no red
      parent over a red child, so those tests change nothing
      (`InsertaRNForma`). */
  function InsertaRN(v: Vertice<Color>, x: int): Vertice<Color>
  {
    match v
    case Nulo => Vertice(Nulo, x, Rojo, Nulo)
    case Vertice(i, e, c, d) =>
      if x <= e then BalanceaIzquierdo(Vertice(InsertaRN(i, x), e, c, d), x)
      else BalanceaDerecho(Vertice(i, e, c, InsertaRN(d, x)), x)
  }

  /** The root step of `balanceoAgrega`: a vertex without parent is painted
      black. */
  function Ennegrece(v: Vertice<Color>): (r: Vertice<Color>)
    ensures !EsRojo(r) && EnOrden(r) == EnOrden(v)
  {
    if EsRojo(v) then Pinta(v, Negro) else v
  }

  /** `agrega(e)`: null throws IllegalArgumentException (from the ordered
      tree); otherwise the count rises by one and the element is inserted
      red and rebalanced. */
  function Agrega(a: Arbol<Color>, e: Option<int>): (r: Result<Arbol<Color>>)
    ensures e.None? <==> r.Err?
    ensures r.Err? ==> r.error == ArgumentoIlegal
    ensures r.Ok? ==> r.value.elementos == a.elementos + 1 && !EsRojo(r.value.raiz)
  {
    match e
    case None => Err(ArgumentoIlegal)
    case Some(x) => Ok(Arbol(Ennegrece(InsertaRN(a.raiz, x)), a.elementos + 1))
  }

  /** Red-black except that the root may be red with one red child, the one
      on the side `x` went; black heights are balanced at the root. */
  ghost predicate RojoArriba(r: Vertice<Color>, x: int)
  {
    r.Vertice? && r.dato == Rojo && EsRN(r.izquierdo) && EsRN(r.derecho)
    && AlturaNegra(r.izquierdo) == AlturaNegra(r.derecho)
    && (if x <= r.elemento then !EsRojo(r.derecho) else !EsRojo(r.izquierdo))
  }

  lemma BalanceaIzquierdoCorrecto(p: Vertice<Color>, e: int, t: Vertice<Color>, x: int)
    requires EsRN(t) && AlturaNegra(p) == AlturaNegra(t)
    requires EsRN(p) || RojoArriba(p, x)
    ensures var r := BalanceaIzquierdo(Vertice(p, e, Negro, t), x);
      EsRN(r) && AlturaNegra(r) == AlturaNegra(p) + 1
  {
    if EsRojo(p) && !EsRN(p) {
      var v := if x <= p.elemento then p.izquierdo else p.derecho;
      if x > p.elemento {
        var g := RotaIzquierda(p);
        assert g == Vertice(Vertice(p.izquierdo, p.elemento, Rojo, v.izquierdo), v.elemento, v.dato, v.derecho);
      }
    }
  }

  lemma BalanceaDerechoCorrecto(t: Vertice<Color>, e: int, p: Vertice<Color>, x: int)
    requires EsRN(t) && AlturaNegra(p) == AlturaNegra(t)
    requires EsRN(p) || RojoArriba(p, x)
    ensures var r := BalanceaDerecho(Vertice(t, e, Negro, p), x);
      EsRN(r) && AlturaNegra(r) == AlturaNegra(t) + 1
  {
    if EsRojo(p) && !EsRN(p) {
      var v := if x <= p.elemento then p.izquierdo else p.derecho;
      if x <= p.elemento {
        var g := RotaDerecha(p);
        assert g == Vertice(v.izquierdo, v.elemento, v.dato, Vertice(v.derecho, p.elemento, Rojo, p.derecho));
      }
    }
  }

  /** Insertion below a black vertex (or into an empty tree) gives a
      red-black tree of the same black height; below a red vertex it gives
      one whose only flaw is a red child of the red root, on the path of
      the element, for the grandparent's step to repair. */
  lemma {:induction false} InsertaRNForma(v: Vertice<Color>, x: int)
    requires EsRN(v)
    ensures AlturaNegra(InsertaRN(v, x)) == AlturaNegra(v)
    ensures !EsRojo(v) ==> EsRN(InsertaRN(v, x))
    ensures EsRojo(v) ==> RojoArriba(InsertaRN(v, x), x) && InsertaRN(v, x).elemento == v.elemento
  {
    match v
    case Nulo =>
    case Vertice(i, e, c, d) =>
      if x <= e {
        InsertaRNForma(i, x);
        var i2 := InsertaRN(i, x);
        if c == Rojo {
          assert BalanceaIzquierdo(Vertice(i2, e, c, d), x) == Vertice(i2, e, c, d);
        } else {
          BalanceaIzquierdoCorrecto(i2, e, d, x);
        }
      } else {
        InsertaRNForma(d, x);
        var d2 := InsertaRN(d, x);
        if c == Rojo {
          assert BalanceaDerecho(Vertice(i, e, c, d2), x) == Vertice(i, e, c, d2);
        } else {
          BalanceaDerechoCorrecto(i, e, d2, x);
        }
      }
  }

  /** The recolourings and rotations do not change the in-order sequence:
      it is the one of the plain ordered-tree insertion. */
  lemma {:induction false} InsertaRNEnOrden(v: Vertice<Color>, x: int)
    ensures EnOrden(InsertaRN(v, x)) == EnOrden(Inserta(v, x, Rojo))
  {
    match v
    case Nulo =>
    case Vertice(i, e, c, d) =>
      if x <= e { InsertaRNEnOrden(i, x); } else { InsertaRNEnOrden(d, x); }
  }

  /** Adding keeps the invariant (black root, no red vertex with a red
      child, equal black counts on all paths) and the count, and adds
      exactly the element. */
  lemma AgregaCorrecto(a: Arbol<Color>, x: int)
    requires Valido(a.raiz) && Contado(a)
    ensures var b := Agrega(a, Some(x)).value;
      Valido(b.raiz) && Contado(b) && Elementos(b.raiz) == Elementos(a.raiz) + multiset{x}
      && EnOrden(b.raiz) == EnOrden(Inserta(a.raiz, x, Rojo))
  {
    var r := InsertaRN(a.raiz, x);
    var b := Ennegrece(r);
    InsertaRNForma(a.raiz, x);
    InsertaRNEnOrden(a.raiz, x);
    var bst := Inserta(a.raiz, x, Rojo);
    RecorridosCompletos(b);
    RecorridosCompletos(bst);
    ABBSiiEnOrdenOrdenado(b);
    ABBSiiEnOrdenOrdenado(bst);
    TamanoElementos(a.raiz);
    TamanoElementos(b);
  }

  // ---------------------------------------------------------------------
  // Deletion

  /** Cases 3 to 6 of `balanceoElimina` at parent `p` whose left child `v`
      is one black short and whose right child `h` is its sibling:
      3. everything black: `h` red, and the walk goes on from `p`;
      4. `p` red, the rest black: `h` red, `p` black;
      5. near nephew red, far one black: `h` red, the near one black, rotate
         right on `h`;
      6. the sibling takes `p`'s colour, `p` and the far nephew go black,
         rotate left on `p`.
      Without a sibling (impossible when `v` is a black short) the source
      would dereference null; here nothing happens. */
  function ResuelveIzquierdo(p: Vertice<Color>): (r: (Vertice<Color>, bool))
    requires p.Vertice?
    ensures r.0.Vertice? && EnOrden(r.0) == EnOrden(p)
  {
    var h := p.derecho;
    if h.Nulo? then (p, false)
    else
      var hi, hd := h.izquierdo, h.derecho;
      if !EsRojo(p) && !EsRojo(h) && !EsRojo(hi) && !EsRojo(hd) then
        (Vertice(p.izquierdo, p.elemento, p.dato, Pinta(h, Rojo)), true)
      else if !EsRojo(h) && !EsRojo(hi) && !EsRojo(hd) && EsRojo(p) then
        (Vertice(p.izquierdo, p.elemento, Negro, Pinta(h, Rojo)), false)
      else
        var h2 := if EsRojo(hi) && !EsRojo(hd) then RotaDerecha(Vertice(Pinta(hi, Negro), h.elemento, Rojo, hd)) else h;
        var h3 := Vertice(h2.izquierdo, h2.elemento, p.dato, if h2.derecho.Vertice? then Pinta(h2.derecho, Negro) else Nulo);
        assert EnOrden(h2) == EnOrden(h) && EnOrden(h3) == EnOrden(h2);
        (RotaIzquierda(Vertice(p.izquierdo, p.elemento, Negro, h3)), false)
  }

  /** Mirror of `ResuelveIzquierdo` for a right child one black short. */
  function ResuelveDerecho(p: Vertice<Color>): (r: (Vertice<Color>, bool))
    requires p.Vertice?
    ensures r.0.Vertice? && EnOrden(r.0) == EnOrden(p)
  {
    var h := p.izquierdo;
    if h.Nulo? then (p, false)
    else
      var hi, hd := h.izquierdo, h.derecho;
      if !EsRojo(p) && !EsRojo(h) && !EsRojo(hi) && !EsRojo(hd) then
        (Vertice(Pinta(h, Rojo), p.elemento, p.dato, p.derecho), true)
      else if !EsRojo(h) && !EsRojo(hi) && !EsRojo(hd) && EsRojo(p) then
        (Vertice(Pinta(h, Rojo), p.elemento, Negro, p.derecho), false)
      else
        var h2 := if !EsRojo(hi) && EsRojo(hd) then RotaIzquierda(Vertice(hi, h.elemento, Rojo, Pinta(hd, Negro))) else h;
        var h3 := Vertice(if h2.izquierdo.Vertice? then Pinta(h2.izquierdo, Negro) else Nulo, h2.elemento, p.dato, h2.derecho);
        assert EnOrden(h2) == EnOrden(h) && EnOrden(h3) == EnOrden(h2);
        (RotaDerecha(Vertice(h3, p.elemento, Negro, p.derecho)), false)
  }

  /** `balanceoElimina` at the parent of a left child one black short:
      case 2 (red sibling: `p` red, sibling black, rotate left on `p`, and
      the new sibling is the old one's left child), then cases 3 to 6. */
  function BalanceoEliminaIzquierdo(p: Vertice<Color>): (r: (Vertice<Color>, bool))
    requires p.Vertice?
    ensures r.0.Vertice? && EnOrden(r.0) == EnOrden(p)
  {
    var h := p.derecho;
    if EsRojo(h) then
      var g := RotaIzquierda(Vertice(p.izquierdo, p.elemento, Rojo, Pinta(h, Negro)));
      var (q, falta) := ResuelveIzquierdo(g.izquierdo);
      (Vertice(q, g.elemento, g.dato, g.derecho), falta)
    else ResuelveIzquierdo(p)
  }

  /** Mirror of `BalanceoEliminaIzquierdo`. */
  function BalanceoEliminaDerecho(p: Vertice<Color>): (r: (Vertice<Color>, bool))
    requires p.Vertice?
    ensures r.0.Vertice? && EnOrden(r.0) == EnOrden(p)
  {
    var h := p.izquierdo;
    if EsRojo(h) then
      var g := RotaDerecha(Vertice(Pinta(h, Negro), p.elemento, Rojo, p.derecho));
      var (q, falta) := ResuelveDerecho(g.derecho);
      (Vertice(g.izquierdo, g.elemento, g.dato, q), falta)
    else ResuelveDerecho(p)
  }

  /** Splicing out a vertex with at most one child: the child takes its
      place (an absent child is the phantom black leaf, removed at the end);
      a red replacement is painted black; otherwise a black spliced vertex
      leaves its place one black short. */
  function Extrae(v: Vertice<Color>): (r: (Vertice<Color>, bool))
    requires v.Vertice? && (v.izquierdo.Nulo? || v.derecho.Nulo?)
    ensures EnOrden(r.0) == EnOrden(v.izquierdo) + EnOrden(v.derecho)
  {
    var hijastro := if v.derecho.Nulo? then v.izquierdo else v.derecho;
    if EsRojo(hijastro) then (Pinta(hijastro, Negro), false)
    else if !EsRojo(v) then (hijastro, true)
    else (hijastro, false)
  }

  /** Resolve a shortage coming up from the left child, if any. */
  function TrasIzquierdo(n: Vertice<Color>, falta: bool): (r: (Vertice<Color>, bool))
    requires n.Vertice?
    ensures r.0.Vertice? && EnOrden(r.0) == EnOrden(n)
  {
    if falta then BalanceoEliminaIzquierdo(n) else (n, false)
  }

  /** Resolve a shortage coming up from the right child, if any. */
  function TrasDerecho(n: Vertice<Color>, falta: bool): (r: (Vertice<Color>, bool))
    requires n.Vertice?
    ensures r.0.Vertice? && EnOrden(r.0) == EnOrden(n)
  {
    if falta then BalanceoEliminaDerecho(n) else (n, false)
  }

  /** Splice out the maximum of a subtree and take its element, resolving
      the shortage on the way back. */
  function EliminaMaximoRN(v: Vertice<Color>): (r: (Vertice<Color>, int, bool))
    requires v.Vertice?
    ensures EnOrden(r.0) + [r.1] == EnOrden(v)
    decreases Tamano(v)
  {
    if v.derecho.Nulo? then
      var (s, falta) := Extrae(v);
      (s, v.elemento, falta)
    else
      var (d, m, falta) := EliminaMaximoRN(v.derecho);
      var (s, falta2) := TrasDerecho(Vertice(v.izquierdo, v.elemento, v.dato, d), falta);
      (s, m, falta2)
  }

  /** `elimina` once the element is known to be present: the descent of
      `busca`; at the found vertex, with two children its element is
      replaced by the maximum of its left subtree, whose vertex is spliced
      out, otherwise the vertex itself is spliced out; the shortage is
      resolved on the way back and dropped at the root. */
  function EliminaRN(v: Vertice<Color>, x: int): (r: (Vertice<Color>, bool))
  {
    match v
    case Nulo => (Nulo, false)
    case Vertice(i, e, c, d) =>
      if e == x then
        if i.Vertice? && d.Vertice? then
          var (i2, m, falta) := EliminaMaximoRN(i);
          TrasIzquierdo(Vertice(i2, m, c, d), falta)
        else Extrae(v)
      else if x < e then
        var (i2, falta) := EliminaRN(i, x);
        TrasIzquierdo(Vertice(i2, e, c, d), falta)
      else
        var (d2, falta) := EliminaRN(d, x);
        TrasDerecho(Vertice(i, e, c, d2), falta)
  }

  /** `elimina(e)`: null does nothing; an element `busca` does not find
      (also on an empty tree) reaches `vertice(null)`, which throws
      ClassCastException; otherwise the count drops by one and the element
      is deleted and rebalanced. */
  function Elimina(a: Arbol<Color>, e: Option<int>): (r: Result<Arbol<Color>>)
    ensures e.None? ==> r == Ok(a)
    ensures r.Err? ==> r.error == ConversionInvalida
    ensures e.Some? ==> (r.Err? <==> BuscaABB(a.raiz, e.value).None?)
  {
    if e.None? then Ok(a)
    else match BuscaABB(a.raiz, e.value)
      case None => Err(ConversionInvalida)
      case Some(_) => Ok(Arbol(EliminaRN(a.raiz, e.value).0, a.elementos - 1))
  }

  // ---------------------------------------------------------------------
  // Correctness of deletion

  /** What deletion promises of a subtree: red-black, black height lower by
      one exactly when it reports a shortage, a red root only where there
      was one, and a short subtree has a black root. */
  ghost predicate Reducido(v: Vertice<Color>, r: Vertice<Color>, falta: bool)
  {
    EsRN(r) && AlturaNegra(r) + (if falta then 1 else 0) == AlturaNegra(v)
    && (EsRojo(r) ==> EsRojo(v)) && (falta ==> !EsRojo(r))
  }

  lemma ResuelveIzquierdoCorrecto(p: Vertice<Color>)
    requires p.Vertice? && EsRN(p.izquierdo) && EsRN(p.derecho) && p.dato != Ninguno
    requires !EsRojo(p.izquierdo) && !EsRojo(p.derecho)
    requires AlturaNegra(p.izquierdo) + 1 == AlturaNegra(p.derecho)
    ensures var (r, falta) := ResuelveIzquierdo(p);
      EsRN(r) && AlturaNegra(r) + (if falta then 1 else 0) == AlturaNegra(p.derecho) + (if p.dato == Rojo then 0 else 1)
      && (EsRojo(r) ==> p.dato == Rojo) && (falta ==> !EsRojo(r) && p.dato != Rojo)
  {
    var h := p.derecho;
    var hi, hd := h.izquierdo, h.derecho;
    if EsRojo(hi) && !EsRojo(hd) && !(!EsRojo(p) && !EsRojo(hi) && !EsRojo(hd)) {
      var h2 := RotaDerecha(Vertice(Pinta(hi, Negro), h.elemento, Rojo, hd));
      assert h2 == Vertice(hi.izquierdo, hi.elemento, Negro, Vertice(hi.derecho, h.elemento, Rojo, hd));
    }
  }

  lemma ResuelveDerechoCorrecto(p: Vertice<Color>)
    requires p.Vertice? && EsRN(p.izquierdo) && EsRN(p.derecho) && p.dato != Ninguno
    requires !EsRojo(p.izquierdo) && !EsRojo(p.derecho)
    requires AlturaNegra(p.derecho) + 1 == AlturaNegra(p.izquierdo)
    ensures var (r, falta) := ResuelveDerecho(p);
      EsRN(r) && AlturaNegra(r) + (if falta then 1 else 0) == AlturaNegra(p.izquierdo) + (if p.dato == Rojo then 0 else 1)
      && (EsRojo(r) ==> p.dato == Rojo) && (falta ==> !EsRojo(r) && p.dato != Rojo)
  {
    var h := p.izquierdo;
    var hi, hd := h.izquierdo, h.derecho;
    if !EsRojo(hi) && EsRojo(hd) && !(!EsRojo(p) && !EsRojo(hi) && !EsRojo(hd)) {
      var h2 := RotaIzquierda(Vertice(hi, h.elemento, Rojo, Pinta(hd, Negro)));
      assert h2 == Vertice(Vertice(hi, h.elemento, Rojo, hd.izquierdo), hd.elemento, Negro, hd.derecho);
    }
  }

  /** `balanceoElimina` at a parent whose left child is one black short
      makes it red-black again, either with the parent's black height, or
      one short with a black root (case 3, the walk goes on). */
  lemma BalanceoEliminaIzquierdoCorrecto(p: Vertice<Color>)
    requires p.Vertice? && EsRN(p.izquierdo) && EsRN(p.derecho) && p.dato != Ninguno
    requires !EsRojo(p.izquierdo) && (p.dato == Rojo ==> !EsRojo(p.derecho))
    requires AlturaNegra(p.izquierdo) + 1 == AlturaNegra(p.derecho)
    ensures var (r, falta) := BalanceoEliminaIzquierdo(p);
      EsRN(r) && AlturaNegra(r) + (if falta then 1 else 0) == AlturaNegra(p.derecho) + (if p.dato == Rojo then 0 else 1)
      && (EsRojo(r) ==> p.dato == Rojo) && (falta ==> !EsRojo(r) && p.dato != Rojo)
  {
    var h := p.derecho;
    if EsRojo(h) {
      var g := RotaIzquierda(Vertice(p.izquierdo, p.elemento, Rojo, Pinta(h, Negro)));
      assert g == Vertice(Vertice(p.izquierdo, p.elemento, Rojo, h.izquierdo), h.elemento, Negro, h.derecho);
      ResuelveIzquierdoCorrecto(g.izquierdo);
    } else {
      ResuelveIzquierdoCorrecto(p);
    }
  }

  lemma BalanceoEliminaDerechoCorrecto(p: Vertice<Color>)
    requires p.Vertice? && EsRN(p.izquierdo) && EsRN(p.derecho) && p.dato != Ninguno
    requires !EsRojo(p.derecho) && (p.dato == Rojo ==> !EsRojo(p.izquierdo))
    requires AlturaNegra(p.derecho) + 1 == AlturaNegra(p.izquierdo)
    ensures var (r, falta) := BalanceoEliminaDerecho(p);
      EsRN(r) && AlturaNegra(r) + (if falta then 1 else 0) == AlturaNegra(p.izquierdo) + (if p.dato == Rojo then 0 else 1)
      && (EsRojo(r) ==> p.dato == Rojo) && (falta ==> !EsRojo(r) && p.dato != Rojo)
  {
    var h := p.izquierdo;
    if EsRojo(h) {
      var g := RotaDerecha(Vertice(Pinta(h, Negro), p.elemento, Rojo, p.derecho));
      assert g == Vertice(h.izquierdo, h.elemento, Negro, Vertice(h.derecho, p.elemento, Rojo, p.derecho));
      ResuelveDerechoCorrecto(g.derecho);
    } else {
      ResuelveDerechoCorrecto(p);
    }
  }

  /** A subtree rebuilt from a reduced left child. */
  lemma TrasIzquierdoCorrecto(i: Vertice<Color>, i2: Vertice<Color>, e: int, c: Color, d: Vertice<Color>, falta: bool)
    requires EsRN(Vertice(i, e, c, d)) && Reducido(i, i2, falta)
    ensures var (r, falta2) := TrasIzquierdo(Vertice(i2, e, c, d), falta);
      Reducido(Vertice(i, e, c, d), r, falta2)
  {
    if falta {
      BalanceoEliminaIzquierdoCorrecto(Vertice(i2, e, c, d));
    }
  }

  /** A subtree rebuilt from a reduced right child. */
  lemma TrasDerechoCorrecto(i: Vertice<Color>, e: int, c: Color, d: Vertice<Color>, d2: Vertice<Color>, falta: bool)
    requires EsRN(Vertice(i, e, c, d)) && Reducido(d, d2, falta)
    ensures var (r, falta2) := TrasDerecho(Vertice(i, e, c, d2), falta);
      Reducido(Vertice(i, e, c, d), r, falta2)
  {
    if falta {
      BalanceoEliminaDerechoCorrecto(Vertice(i, e, c, d2));
    }
  }

  lemma ExtraeCorrecto(v: Vertice<Color>)
    requires v.Vertice? && (v.izquierdo.Nulo? || v.derecho.Nulo?) && EsRN(v)
    ensures var (r, falta) := Extrae(v); Reducido(v, r, falta)
  {
  }

  lemma {:induction false} EliminaMaximoRNForma(v: Vertice<Color>)
    requires v.Vertice? && EsRN(v)
    ensures var (r, _, falta) := EliminaMaximoRN(v); Reducido(v, r, falta)
    decreases Tamano(v)
  {
    if v.derecho.Nulo? {
      ExtraeCorrecto(v);
    } else {
      EliminaMaximoRNForma(v.derecho);
      var (d, m, falta) := EliminaMaximoRN(v.derecho);
      TrasDerechoCorrecto(v.izquierdo, v.elemento, v.dato, v.derecho, d, falta);
    }
  }

  /** Deletion from a red-black subtree gives a red-black subtree whose
      black height is lower by one exactly when it reports a shortage. */
  lemma {:induction false} EliminaRNForma(v: Vertice<Color>, x: int)
    requires EsRN(v)
    ensures var (r, falta) := EliminaRN(v, x); Reducido(v, r, falta)
  {
    match v
    case Nulo =>
    case Vertice(i, e, c, d) =>
      if e == x {
        if i.Vertice? && d.Vertice? {
          EliminaMaximoRNForma(i);
          var (i2, m, falta) := EliminaMaximoRN(i);
          TrasIzquierdoCorrecto(i, i2, m, c, d, falta);
          assert EsRN(Vertice(i, m, c, d));
        } else {
          ExtraeCorrecto(v);
        }
      } else if x < e {
        EliminaRNForma(i, x);
        var (i2, falta) := EliminaRN(i, x);
        TrasIzquierdoCorrecto(i, i2, e, c, d, falta);
      } else {
        EliminaRNForma(d, x);
        var (d2, falta) := EliminaRN(d, x);
        TrasDerechoCorrecto(i, e, c, d, d2, falta);
      }
  }

  /** On an ordered tree holding `x`, deletion takes one occurrence of `x`
      out of the in-order sequence. */
  lemma {:induction false} EliminaRNEnOrden(v: Vertice<Color>, x: int) returns (k: nat)
    requires EsABB(v) && x in Elementos(v)
    ensures k < |EnOrden(v)| && EnOrden(v)[k] == x
    ensures EnOrden(EliminaRN(v, x).0) == SinPosicion(EnOrden(v), k)
  {
    var i, e, d := v.izquierdo, v.elemento, v.derecho;
    if e == x {
      k := EncontradoEnOrden(v);
    } else if x < e {
      assert x in Elementos(i) by {
        assert forall y :: y in Elementos(d) ==> e <= y;
      }
      var k2 := EliminaRNEnOrden(i, x);
      k := BajaIzquierdaEnOrden(v, x, k2);
    } else {
      assert x in Elementos(d) by {
        assert forall y :: y in Elementos(i) ==> y <= e;
      }
      var k2 := EliminaRNEnOrden(d, x);
      k := BajaDerechaEnOrden(v, x, k2);
    }
  }

  lemma EncontradoEnOrden(v: Vertice<Color>) returns (k: nat)
    requires v.Vertice?
    ensures k < |EnOrden(v)| && EnOrden(v)[k] == v.elemento
    ensures EnOrden(EliminaRN(v, v.elemento).0) == SinPosicion(EnOrden(v), k)
  {
    var i, e, c, d := v.izquierdo, v.elemento, v.dato, v.derecho;
    var L, R := EnOrden(i), EnOrden(d);
    k := |L|;
    SinPosicionMedio(EnOrden(v), L, e, R);
    if i.Vertice? && d.Vertice? {
      var (i2, m, falta) := EliminaMaximoRN(i);
      assert EliminaRN(v, e) == TrasIzquierdo(Vertice(i2, m, c, d), falta);
      assert EnOrden(i2) + [m] == L;
    }
  }

  lemma BajaIzquierdaEnOrden(v: Vertice<Color>, x: int, k2: nat) returns (k: nat)
    requires v.Vertice? && x < v.elemento
    requires k2 < |EnOrden(v.izquierdo)| && EnOrden(v.izquierdo)[k2] == x
    requires EnOrden(EliminaRN(v.izquierdo, x).0) == SinPosicion(EnOrden(v.izquierdo), k2)
    ensures k < |EnOrden(v)| && EnOrden(v)[k] == x
    ensures EnOrden(EliminaRN(v, x).0) == SinPosicion(EnOrden(v), k)
  {
    var L, R := EnOrden(v.izquierdo), EnOrden(v.derecho);
    k := k2;
    EliminaRNIzquierda(v, x);
    assert EnOrden(v) == L + [v.elemento] + R;
    SinPosicionIzquierda(L, v.elemento, R, k2);
  }

  lemma BajaDerechaEnOrden(v: Vertice<Color>, x: int, k2: nat) returns (k: nat)
    requires v.Vertice? && v.elemento < x
    requires k2 < |EnOrden(v.derecho)| && EnOrden(v.derecho)[k2] == x
    requires EnOrden(EliminaRN(v.derecho, x).0) == SinPosicion(EnOrden(v.derecho), k2)
    ensures k < |EnOrden(v)| && EnOrden(v)[k] == x
    ensures EnOrden(EliminaRN(v, x).0) == SinPosicion(EnOrden(v), k)
  {
    var L, R := EnOrden(v.izquierdo), EnOrden(v.derecho);
    k := |L| + 1 + k2;
    EliminaRNDerecha(v, x);
    assert EnOrden(v) == L + [v.elemento] + R;
    SinPosicionDerecha(L, v.elemento, R, k2);
  }

  /** Deleting an element below the vertex's deletes it on the left. */
  lemma EliminaRNIzquierda(v: Vertice<Color>, x: int)
    requires v.Vertice? && x < v.elemento
    ensures EnOrden(EliminaRN(v, x).0) == EnOrden(EliminaRN(v.izquierdo, x).0) + [v.elemento] + EnOrden(v.derecho)
  {
    var (i2, falta) := EliminaRN(v.izquierdo, x);
    EliminaRNIzquierdaForma(v, x);
    EnOrdenTrasIzquierdo(i2, v.elemento, v.dato, v.derecho, falta);
  }

  lemma EliminaRNIzquierdaForma(v: Vertice<Color>, x: int)
    requires v.Vertice? && x < v.elemento
    ensures var (i2, falta) := EliminaRN(v.izquierdo, x);
      EliminaRN(v, x) == TrasIzquierdo(Vertice(i2, v.elemento, v.dato, v.derecho), falta)
  {
  }

  /** Deleting an element above the vertex's deletes it on the right. */
  lemma EliminaRNDerecha(v: Vertice<Color>, x: int)
    requires v.Vertice? && v.elemento < x
    ensures EnOrden(EliminaRN(v, x).0) == EnOrden(v.izquierdo) + [v.elemento] + EnOrden(EliminaRN(v.derecho, x).0)
  {
    var (d2, falta) := EliminaRN(v.derecho, x);
    EliminaRNDerechaForma(v, x);
    EnOrdenTrasDerecho(v.izquierdo, v.elemento, v.dato, d2, falta);
  }

  lemma EliminaRNDerechaForma(v: Vertice<Color>, x: int)
    requires v.Vertice? && v.elemento < x
    ensures var (d2, falta) := EliminaRN(v.derecho, x);
      EliminaRN(v, x) == TrasDerecho(Vertice(v.izquierdo, v.elemento, v.dato, d2), falta)
  {
  }

  /** The repairs after a deletion keep the in-order sequence of the parts. */
  lemma EnOrdenTrasIzquierdo(i: Vertice<Color>, e: int, c: Color, d: Vertice<Color>, falta: bool)
    ensures EnOrden(TrasIzquierdo(Vertice(i, e, c, d), falta).0) == EnOrden(i) + [e] + EnOrden(d)
  {
    assert EnOrden(Vertice(i, e, c, d)) == EnOrden(i) + [e] + EnOrden(d);
  }

  lemma EnOrdenTrasDerecho(i: Vertice<Color>, e: int, c: Color, d: Vertice<Color>, falta: bool)
    ensures EnOrden(TrasDerecho(Vertice(i, e, c, d), falta).0) == EnOrden(i) + [e] + EnOrden(d)
  {
    assert EnOrden(Vertice(i, e, c, d)) == EnOrden(i) + [e] + EnOrden(d);
  }

  /** Deleting a present element keeps the invariant (the root stays black)
      and the count, and removes one copy of it from the in-order sequence;
      deleting an absent one throws. */
  lemma EliminaCorrecto(a: Arbol<Color>, x: int)
    requires Valido(a.raiz) && Contado(a)
    ensures Elimina(a, Some(x)).Err? <==> x !in Elementos(a.raiz)
    ensures Elimina(a, Some(x)).Ok? ==>
      var b := Elimina(a, Some(x)).value;
      Valido(b.raiz) && Contado(b)
      && Elementos(b.raiz) == Elementos(a.raiz) - multiset{x}
      && exists k :: 0 <= k < |EnOrden(a.raiz)| && EnOrden(a.raiz)[k] == x
                     && EnOrden(b.raiz) == SinPosicion(EnOrden(a.raiz), k)
  {
    if x in Elementos(a.raiz) {
      var r := EliminaRN(a.raiz, x).0;
      var k := EliminaRNEnOrden(a.raiz, x);
      EliminaRNForma(a.raiz, x);
      var u := EnOrden(a.raiz);
      assert Elementos(r) == Elementos(a.raiz) - multiset{x} by {
        RecorridosCompletos(a.raiz);
        RecorridosCompletos(r);
        SinPosicionMultiset(u, k);
      }
      assert EsABB(r) by {
        ABBSiiEnOrdenOrdenado(a.raiz);
        OrdenadaSinPosicion(u, k);
        ABBSiiEnOrdenOrdenado(r);
      }
      TamanoElementos(a.raiz);
      TamanoElementos(r);
    }
  }

  // ---------------------------------------------------------------------
  // The written left rotation inside `balanceoAgrega`

  /** The tree `agrega` builds from 5, 5, 5 and 6 (ties go left): one right
      rotation and one recolouring, and it is 5(5, 5(-, 6)) with only 6 red,
      in the source too. */
  lemma CuatroInsercionesRN()
    ensures Ennegrece(InsertaRN(Ennegrece(InsertaRN(Ennegrece(InsertaRN(Ennegrece(InsertaRN(Nulo, 5)), 5)), 5)), 6))
            == Vertice(Vertice(Nulo, 5, Negro, Nulo), 5, Negro,
                       Vertice(Nulo, 5, Negro, Vertice(Nulo, 6, Rojo, Nulo)))
  {
    var r5 := Vertice(Nulo, 5, Rojo, Nulo);
    var b5 := Vertice(Nulo, 5, Negro, Nulo);
    var r6 := Vertice(Nulo, 6, Rojo, Nulo);
    assert Ennegrece(InsertaRN(Nulo, 5)) == b5;
    assert Ennegrece(InsertaRN(b5, 5)) == Vertice(r5, 5, Negro, Nulo);
    assert InsertaRN(r5, 5) == Vertice(r5, 5, Rojo, Nulo);
    assert Ennegrece(InsertaRN(Vertice(r5, 5, Negro, Nulo), 5)) == Vertice(r5, 5, Negro, r5);
    assert InsertaRN(r5, 6) == Vertice(Nulo, 5, Rojo, r6);
    assert Ennegrece(InsertaRN(Vertice(r5, 5, Negro, r5), 6))
        == Vertice(b5, 5, Negro, Vertice(Nulo, 5, Negro, r6));
  }

  /** The source's state when `balanceoAgrega` reaches its last case after
      7 is added to that tree: `v` is 7, its parent 6 has been painted black
      and the grandparent, the root's right child, red, with no uncle.  The
      rotation `giraIzquierda(a)` of `ArbolRojinegro.java:171`, as written,
      overwrites the root's left child, which holds an equal element: the
      tree is no longer ordered and has lost a vertex. */
  lemma RotacionEscritaRN()
    ensures
      var t4 := Vertice(Vertice(Nulo, 5, Negro, Nulo), 5, Negro,
                        Vertice(Nulo, 5, Negro, Vertice(Nulo, 6, Rojo, Nulo)));
      var s := Vertice(Vertice(Nulo, 5, Negro, Nulo), 5, Negro,
                       Vertice(Nulo, 5, Rojo, Vertice(Nulo, 6, Negro, Vertice(Nulo, 7, Rojo, Nulo))));
      var escrito := GiraIzquierdaEscrita(Arbol(s, 5), [true]).raiz;
      && Forma(s) == Forma(Inserta(t4, 7, Rojo))
      && !EsRojo(SubarbolEn(s, [true]).izquierdo)
      && EnOrden(escrito) == [5, 6, 7, 5, 5] && !EsABB(escrito) && Tamano(escrito) == 5
  {
    var r7 := Vertice(Nulo, 7, Rojo, Nulo);
    var s := Vertice(Vertice(Nulo, 5, Negro, Nulo), 5, Negro,
                     Vertice(Nulo, 5, Rojo, Vertice(Nulo, 6, Negro, r7)));
    assert [true][1..] == [] && [true][..0] == [];
    var escrito := GiraIzquierdaEscrita(Arbol(s, 5), [true]).raiz;
    assert escrito == Vertice(Vertice(Vertice(Nulo, 5, Rojo, Nulo), 6, Negro, r7), 5, Negro,
                              Vertice(Nulo, 5, Rojo, Nulo));
    assert EnOrden(escrito) == [5, 6, 7, 5, 5];
    ABBSiiEnOrdenOrdenado(escrito);
    assert EnOrden(escrito)[1] > EnOrden(escrito)[3];
  }

  /** The tree of the first four insertions is a valid red-black tree. */
  lemma CuatroInsercionesValido()
    ensures Valido(Vertice(Vertice(Nulo, 5, Negro, Nulo), 5, Negro,
                           Vertice(Nulo, 5, Negro, Vertice(Nulo, 6, Rojo, Nulo))))
  {
    var t4 := Vertice(Vertice(Nulo, 5, Negro, Nulo), 5, Negro,
                      Vertice(Nulo, 5, Negro, Vertice(Nulo, 6, Rojo, Nulo)));
    assert EsRN(t4);
    assert EnOrden(t4) == [5, 5, 5, 6];
    ABBSiiEnOrdenOrdenado(t4);
  }

  /** The ordered-tree insertion of 7 into the tree of the first four. */
  lemma QuintaInsercionABB()
    ensures
      var t4 := Vertice(Vertice(Nulo, 5, Negro, Nulo), 5, Negro,
                        Vertice(Nulo, 5, Negro, Vertice(Nulo, 6, Rojo, Nulo)));
      EnOrden(Inserta(t4, 7, Rojo)) == [5, 5, 5, 6, 7]
  {
    var t4 := Vertice(Vertice(Nulo, 5, Negro, Nulo), 5, Negro,
                      Vertice(Nulo, 5, Negro, Vertice(Nulo, 6, Rojo, Nulo)));
    var r7 := Vertice(Nulo, 7, Rojo, Nulo);
    var b := Vertice(Vertice(Nulo, 5, Negro, Nulo), 5, Negro,
                     Vertice(Nulo, 5, Negro, Vertice(Nulo, 6, Rojo, r7)));
    assert Inserta(Vertice(Nulo, 6, Rojo, Nulo), 7, Rojo) == Vertice(Nulo, 6, Rojo, r7);
    assert Inserta(Vertice(Nulo, 5, Negro, Vertice(Nulo, 6, Rojo, Nulo)), 7, Rojo)
        == Vertice(Nulo, 5, Negro, Vertice(Nulo, 6, Rojo, r7));
    assert Inserta(t4, 7, Rojo) == b;
    assert EnOrden(b) == [5, 5, 5, 6, 7];
  }

  /** The model's `agrega` of 7 rotates by identity: a valid red-black tree
      holding all five elements in order. */
  lemma QuintaInsercionRN(a: Arbol<Color>)
    requires a == Arbol(Vertice(Vertice(Nulo, 5, Negro, Nulo), 5, Negro,
                                Vertice(Nulo, 5, Negro, Vertice(Nulo, 6, Rojo, Nulo))), 4)
    ensures Valido(a.raiz) && Contado(a)
    ensures var b := Agrega(a, Some(7)).value;
            Valido(b.raiz) && Contado(b) && EnOrden(b.raiz) == [5, 5, 5, 6, 7]
  {
    QuintaInsercionABB();
    assert Contado(a) by {
      assert Tamano(a.raiz) == 4;
    }
    CuatroInsercionesValido();
    AgregaCorrecto(a, 7);
  }

  // ---------------------------------------------------------------------
  // Colour queries and equality

  /** `getColor(vertice)`: the colour of a red-black vertex; a handle that
      is not one (here: null) throws ClassCastException. */
  function GetColor(a: Arbol<Color>, h: Option<Ruta>): (r: Result<Color>)
    requires h.Some? ==> EsVertice(a.raiz, h.value)
    ensures r.Err? <==> h.None?
    ensures r.Err? ==> r.error == ConversionInvalida
    ensures r.Ok? ==> (r.value == Rojo <==> EsRojo(SubarbolEn(a.raiz, h.value)))
  {
    match h
    case None => Err(ConversionInvalida)
    case Some(p) => Ok(SubarbolEn(a.raiz, p).dato)
  }

  /** `VerticeRojinegro.equals`: equal colours at the two vertices and the
      same elements in the same shape below. */
  function IgualesVertice(a: Vertice<Color>, b: Vertice<Color>): (r: bool)
    ensures r <==> (a.Nulo? <==> b.Nulo?) && (a.Vertice? ==> a.dato == b.dato) && Forma(a) == Forma(b)
  {
    IgualesSiiMismaForma(a, b);
    (if a.Vertice? && b.Vertice? then a.dato == b.dato else true) && Iguales(a, b)
  }
}
