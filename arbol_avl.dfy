/** AVL trees: ordered trees whose vertices cache their height, and in which
    the heights of the two subtrees of every vertex differ by at most one.
    Insertion and deletion are those of the ordered tree followed by
    `rebalanceo`, which walks from the parent of the added or spliced
    vertex up to the root.  Each step depends only on the subtree it is
    applied to, so the walk is the same as applying the step to every
    ancestor bottom-up, which is how it is written here: the descent
    repairs each vertex on the way back up.  The payload of a vertex is its
    cached `altura`. */
module ArbolAVL {
  import opened Comun
  import opened ArbolBinario
  import opened ArbolBinarioOrdenado

  // ---------------------------------------------------------------------
  // Cached heights and the invariant

  /** The height a child reports: its cached `altura`, or -1 for null. */
  function AlturaCache(v: Vertice<int>): int
  {
    if v.Nulo? then -1 else v.dato
  }

  /** `alturaVertice(v)`: one more than the larger cached child height.
      When both subtrees keep their heights correctly, it is the real height
      of the vertex, whatever the vertex's own cache holds. */
  function AlturaVertice(v: Vertice<int>): (h: int)
    requires v.Vertice?
    ensures EsAVL(v.izquierdo) && EsAVL(v.derecho) ==> h == Altura(v)
  {
    1 + Max(AlturaCache(v.izquierdo), AlturaCache(v.derecho))
  }

  /** `balanceVertice(v)`: left cached height minus right cached height. */
  function BalanceVertice(v: Vertice<int>): int
    requires v.Vertice?
  {
    AlturaCache(v.izquierdo) - AlturaCache(v.derecho)
  }

  /** Every cached height is the real height and every vertex is balanced. */
  ghost predicate EsAVL(v: Vertice<int>)
  {
    match v
    case Nulo => true
    case Vertice(i, _, h, d) =>
      EsAVL(i) && EsAVL(d) && h == Altura(v) && -1 <= Altura(i) - Altura(d) <= 1
  }

  /** The class invariant: ordered, heights cached correctly, balanced. */
  ghost predicate Valido(v: Vertice<int>)
  {
    EsABB(v) && EsAVL(v)
  }

  lemma CacheCorrecta(v: Vertice<int>)
    requires EsAVL(v)
    ensures AlturaCache(v) == Altura(v)
  {
  }

  // ---------------------------------------------------------------------
  // One step of `rebalanceo`

  /** With the right child left-heavy (`balanceVertice(q) == 1`): rotate
      right on `q`, then `q.altura--` and, when `q` had a left child `x`,
      `x.altura++`. */
  function PreparaDerecho(q: Vertice<int>): (r: Vertice<int>)
    requires q.Vertice?
    ensures r.Vertice? && Forma(r) == Forma(RotaDerecha(q)) && EnOrden(r) == EnOrden(q)
  {
    var x := q.izquierdo;
    var g := RotaDerecha(q);
    if x.Nulo? then g.(dato := g.dato - 1)
    else Vertice(g.izquierdo, g.elemento, g.dato + 1, g.derecho.(dato := g.derecho.dato - 1))
  }

  /** Mirror of `PreparaDerecho` for a right-heavy left child: rotate left on
      `p`, then `p.altura--` and, when `p` had a right child `y`,
      `y.altura++`. */
  function PreparaIzquierdo(p: Vertice<int>): (r: Vertice<int>)
    requires p.Vertice?
    ensures r.Vertice? && Forma(r) == Forma(RotaIzquierda(p)) && EnOrden(r) == EnOrden(p)
  {
    var y := p.derecho;
    var g := RotaIzquierda(p);
    if y.Nulo? then g.(dato := g.dato - 1)
    else Vertice(g.izquierdo.(dato := g.izquierdo.dato - 1), g.elemento, g.dato + 1, g.derecho)
  }

  /** The `balance == -2` branch: optionally prepare the right child, rotate
      left on the vertex, and set the two heights from `H` as the source
      does (`H - 1` for the vertex when its new right child `x` has cached
      height `H - 2`, `H - 2` otherwise; the new top gets `H` or `H - 1`). */
  function AjusteIzquierdo(v: Vertice<int>, H: int): (r: Vertice<int>)
    requires v.Vertice? && v.derecho.Vertice?
    ensures r.Vertice? && EnOrden(r) == EnOrden(v)
  {
    var q0 := v.derecho;
    var q := if BalanceVertice(q0) == 1 then PreparaDerecho(q0) else q0;
    var g := RotaIzquierda(v.(derecho := q));
    var x := q.izquierdo;
    var vh := if x.Vertice? && x.dato == H - 2 then H - 1 else H - 2;
    var qh := if vh == H - 1 then H else H - 1;
    Vertice(g.izquierdo.(dato := vh), g.elemento, qh, g.derecho)
  }

  /** The `balance == 2` branch, mirror of `AjusteIzquierdo`. */
  function AjusteDerecho(v: Vertice<int>, H: int): (r: Vertice<int>)
    requires v.Vertice? && v.izquierdo.Vertice?
    ensures r.Vertice? && EnOrden(r) == EnOrden(v)
  {
    var p0 := v.izquierdo;
    var p := if BalanceVertice(p0) == -1 then PreparaIzquierdo(p0) else p0;
    var g := RotaDerecha(v.(izquierdo := p));
    var y := p.derecho;
    var vh := if y.Vertice? && y.dato == H - 2 then H - 1 else H - 2;
    var ph := if vh == H - 1 then H else H - 1;
    Vertice(g.izquierdo, g.elemento, ph, g.derecho.(dato := vh))
  }

  /** One visit of `rebalanceo` to a vertex: recompute its height, rotate
      when the balance is -2 or 2; the flag says whether it rotated (then
      the walk visits the vertex that took its place before going up).  A
      balance of -2 with no right child (or 2 with no left one) cannot arise
      from non-negative cached heights; there the source would dereference
      null and the step does nothing. */
  function Paso(v: Vertice<int>): (r: (Vertice<int>, bool))
    requires v.Vertice?
    ensures r.0.Vertice? && EnOrden(r.0) == EnOrden(v)
  {
    var H := AlturaVertice(v);
    var b := BalanceVertice(v);
    var v1 := v.(dato := H);
    if b == -2 && v.derecho.Vertice? then (AjusteIzquierdo(v1, H), true)
    else if b == 2 && v.izquierdo.Vertice? then (AjusteDerecho(v1, H), true)
    else (v1, false)
  }

  /** The visits of `rebalanceo` at one position of the walk: the step, and
      after a rotation the step again at the vertex now in that place.  The
      source visits that vertex again for as long as it keeps rotating; the
      model stops after the second step.  Over AVL children whose heights
      differ by at most two the second step never rotates
      (`ReparaCorrecto`), so the two differ only on stale cached heights. */
  function Repara(v: Vertice<int>): (r: Vertice<int>)
    requires v.Vertice?
    ensures r.Vertice? && EnOrden(r) == EnOrden(v)
  {
    var (w, giro) := Paso(v);
    if giro then Paso(w).0 else w
  }

  // ---------------------------------------------------------------------
  // Correctness of one step

  /** On a balanced vertex with correct cached heights the step changes
      nothing and does not rotate. */
  lemma PasoSobreAVL(v: Vertice<int>)
    requires v.Vertice? && EsAVL(v)
    ensures Paso(v) == (v, false)
  {
    CacheCorrecta(v.izquierdo);
    CacheCorrecta(v.derecho);
  }

  /** The tree a double rotation builds is an AVL tree of height H - 1
      when its four subtrees are AVL trees, the outer two of height H - 3
      and the inner two of height H - 3 or H - 4, one of them H - 3. */
  lemma GiroDobleAVL(l: Vertice<int>, e1: int, a: Vertice<int>, e2: int, b: Vertice<int>, e3: int, r: Vertice<int>, H: int)
    requires EsAVL(l) && EsAVL(a) && EsAVL(b) && EsAVL(r)
    requires Altura(l) == H - 3 && Altura(r) == H - 3 && Max(Altura(a), Altura(b)) == H - 3
    requires Altura(a) >= H - 4 && Altura(b) >= H - 4
    ensures var t := Vertice(Vertice(l, e1, H - 2, a), e2, H - 1, Vertice(b, e3, H - 2, r));
      EsAVL(t) && Altura(t) == H - 1
  {
  }

  lemma AjusteIzquierdoCorrecto(v: Vertice<int>)
    requires v.Vertice? && v.derecho.Vertice?
    requires EsAVL(v.izquierdo) && EsAVL(v.derecho)
    requires Altura(v.derecho) == Altura(v.izquierdo) + 2
    ensures var H := Altura(v.derecho) + 1;
      var w := AjusteIzquierdo(v.(dato := H), H);
      EsAVL(w) && H - 1 <= Altura(w) <= H
  {
    var H := Altura(v.derecho) + 1;
    CacheCorrecta(v.derecho.izquierdo);
    CacheCorrecta(v.derecho.derecho);
    if BalanceVertice(v.derecho) == 1 {
      AjusteIzquierdoDoble(v);
      AjusteIzquierdoDobleForma(v.(dato := H), H);
    } else {
      AjusteIzquierdoSimple(v);
      AjusteIzquierdoSimpleForma(v.(dato := H), H);
    }
  }

  /** The tree the double rotation of `AjusteIzquierdo` builds. */
  lemma AjusteIzquierdoDobleForma(v: Vertice<int>, H: int)
    requires v.Vertice? && v.derecho.Vertice? && v.derecho.izquierdo.Vertice?
    requires BalanceVertice(v.derecho) == 1 && AlturaCache(v.derecho.izquierdo.izquierdo) != H - 2
    ensures var q0 := v.derecho;
      var x := q0.izquierdo;
      AjusteIzquierdo(v, H)
      == Vertice(Vertice(v.izquierdo, v.elemento, H - 2, x.izquierdo), x.elemento, H - 1,
                 Vertice(x.derecho, q0.elemento, q0.dato - 1, q0.derecho))
  {
    var q0 := v.derecho;
    var x := q0.izquierdo;
    assert PreparaDerecho(q0) == Vertice(x.izquierdo, x.elemento, x.dato + 1, Vertice(x.derecho, q0.elemento, q0.dato - 1, q0.derecho));
  }

  /** The tree the single rotation of `AjusteIzquierdo` builds. */
  lemma AjusteIzquierdoSimpleForma(v: Vertice<int>, H: int)
    requires v.Vertice? && v.derecho.Vertice? && BalanceVertice(v.derecho) != 1
    ensures var q0 := v.derecho;
      var x := q0.izquierdo;
      var vh := if x.Vertice? && x.dato == H - 2 then H - 1 else H - 2;
      AjusteIzquierdo(v, H)
      == Vertice(Vertice(v.izquierdo, v.elemento, vh, x), q0.elemento, if vh == H - 1 then H else H - 1, q0.derecho)
  {
    var q0 := v.derecho;
    assert v.(derecho := q0) == v;
    assert RotaIzquierda(v) == Vertice(Vertice(v.izquierdo, v.elemento, v.dato, q0.izquierdo), q0.elemento, q0.dato, q0.derecho);
  }

  /** The double rotation of `AjusteIzquierdo` on a vertex whose right
      subtree is two taller and left-heavy gives an AVL tree of height
      H - 1: the left child `x` of the right child has height H - 2 and
      becomes the top. */
  lemma AjusteIzquierdoDoble(v: Vertice<int>)
    requires v.Vertice? && v.derecho.Vertice? && v.derecho.izquierdo.Vertice?
    requires EsAVL(v.izquierdo) && EsAVL(v.derecho)
    requires Altura(v.derecho) == Altura(v.izquierdo) + 2
    requires BalanceVertice(v.derecho) == 1
    ensures var H := Altura(v.derecho) + 1;
      var q0 := v.derecho;
      var x := q0.izquierdo;
      var t := Vertice(Vertice(v.izquierdo, v.elemento, H - 2, x.izquierdo), x.elemento, H - 1,
                       Vertice(x.derecho, q0.elemento, q0.dato - 1, q0.derecho));
      EsAVL(t) && Altura(t) == H - 1 && AlturaCache(x.izquierdo) < H - 2
  {
    var H := Altura(v.derecho) + 1;
    var q0 := v.derecho;
    var x := q0.izquierdo;
    CacheCorrecta(q0.izquierdo);
    CacheCorrecta(q0.derecho);
    CacheCorrecta(x.izquierdo);
    assert Altura(v.izquierdo) == H - 3 && Altura(q0.derecho) == H - 3 && q0.dato == H - 1;
    GiroDobleAVL(v.izquierdo, v.elemento, x.izquierdo, x.elemento, x.derecho, q0.elemento, q0.derecho, H);
  }

  /** The single rotation of `AjusteIzquierdo` on a vertex whose right
      subtree is two taller and not left-heavy gives an AVL tree of height
      H or H - 1. */
  lemma AjusteIzquierdoSimple(v: Vertice<int>)
    requires v.Vertice? && v.derecho.Vertice?
    requires EsAVL(v.izquierdo) && EsAVL(v.derecho)
    requires Altura(v.derecho) == Altura(v.izquierdo) + 2
    requires BalanceVertice(v.derecho) != 1
    ensures var H := Altura(v.derecho) + 1;
      var q0 := v.derecho;
      var x := q0.izquierdo;
      var vh := if x.Vertice? && x.dato == H - 2 then H - 1 else H - 2;
      var t := Vertice(Vertice(v.izquierdo, v.elemento, vh, x), q0.elemento, if vh == H - 1 then H else H - 1, q0.derecho);
      EsAVL(t) && H - 1 <= Altura(t) <= H
  {
    var H := Altura(v.derecho) + 1;
    var l, q0 := v.izquierdo, v.derecho;
    var x, y := q0.izquierdo, q0.derecho;
    CacheCorrecta(x);
    CacheCorrecta(y);
    assert Altura(l) == H - 3 && Altura(y) == H - 2 && q0.dato == H - 1;
    var vh := if x.Vertice? && x.dato == H - 2 then H - 1 else H - 2;
    var L1 := Vertice(l, v.elemento, vh, x);
    assert EsAVL(L1) && Altura(L1) == vh;
  }

  lemma AjusteDerechoCorrecto(v: Vertice<int>)
    requires v.Vertice? && v.izquierdo.Vertice?
    requires EsAVL(v.izquierdo) && EsAVL(v.derecho)
    requires Altura(v.izquierdo) == Altura(v.derecho) + 2
    ensures var H := Altura(v.izquierdo) + 1;
      var w := AjusteDerecho(v.(dato := H), H);
      EsAVL(w) && H - 1 <= Altura(w) <= H
  {
    var H := Altura(v.izquierdo) + 1;
    CacheCorrecta(v.izquierdo.izquierdo);
    CacheCorrecta(v.izquierdo.derecho);
    if BalanceVertice(v.izquierdo) == -1 {
      AjusteDerechoDoble(v);
      AjusteDerechoDobleForma(v.(dato := H), H);
    } else {
      AjusteDerechoSimple(v);
      AjusteDerechoSimpleForma(v.(dato := H), H);
    }
  }

  /** The tree the double rotation of `AjusteDerecho` builds. */
  lemma AjusteDerechoDobleForma(v: Vertice<int>, H: int)
    requires v.Vertice? && v.izquierdo.Vertice? && v.izquierdo.derecho.Vertice?
    requires BalanceVertice(v.izquierdo) == -1 && AlturaCache(v.izquierdo.derecho.derecho) != H - 2
    ensures var p0 := v.izquierdo;
      var y := p0.derecho;
      AjusteDerecho(v, H)
      == Vertice(Vertice(p0.izquierdo, p0.elemento, p0.dato - 1, y.izquierdo), y.elemento, H - 1,
                 Vertice(y.derecho, v.elemento, H - 2, v.derecho))
  {
    var p0 := v.izquierdo;
    var y := p0.derecho;
    assert PreparaIzquierdo(p0) == Vertice(Vertice(p0.izquierdo, p0.elemento, p0.dato - 1, y.izquierdo), y.elemento, y.dato + 1, y.derecho);
  }

  /** The tree the single rotation of `AjusteDerecho` builds. */
  lemma AjusteDerechoSimpleForma(v: Vertice<int>, H: int)
    requires v.Vertice? && v.izquierdo.Vertice? && BalanceVertice(v.izquierdo) != -1
    ensures var p0 := v.izquierdo;
      var y := p0.derecho;
      var vh := if y.Vertice? && y.dato == H - 2 then H - 1 else H - 2;
      AjusteDerecho(v, H)
      == Vertice(p0.izquierdo, p0.elemento, if vh == H - 1 then H else H - 1, Vertice(y, v.elemento, vh, v.derecho))
  {
    var p0 := v.izquierdo;
    assert v.(izquierdo := p0) == v;
    assert RotaDerecha(v) == Vertice(p0.izquierdo, p0.elemento, p0.dato, Vertice(p0.derecho, v.elemento, v.dato, v.derecho));
  }

  /** Mirror of `AjusteIzquierdoDoble`. */
  lemma AjusteDerechoDoble(v: Vertice<int>)
    requires v.Vertice? && v.izquierdo.Vertice? && v.izquierdo.derecho.Vertice?
    requires EsAVL(v.izquierdo) && EsAVL(v.derecho)
    requires Altura(v.izquierdo) == Altura(v.derecho) + 2
    requires BalanceVertice(v.izquierdo) == -1
    ensures var H := Altura(v.izquierdo) + 1;
      var p0 := v.izquierdo;
      var y := p0.derecho;
      var t := Vertice(Vertice(p0.izquierdo, p0.elemento, p0.dato - 1, y.izquierdo), y.elemento, H - 1,
                       Vertice(y.derecho, v.elemento, H - 2, v.derecho));
      EsAVL(t) && Altura(t) == H - 1 && AlturaCache(y.derecho) < H - 2
  {
    var H := Altura(v.izquierdo) + 1;
    var p0 := v.izquierdo;
    var y := p0.derecho;
    CacheCorrecta(p0.izquierdo);
    CacheCorrecta(p0.derecho);
    CacheCorrecta(y.derecho);
    assert Altura(v.derecho) == H - 3 && Altura(p0.izquierdo) == H - 3 && p0.dato == H - 1;
    GiroDobleAVL(p0.izquierdo, p0.elemento, y.izquierdo, y.elemento, y.derecho, v.elemento, v.derecho, H);
  }

  /** Mirror of `AjusteIzquierdoSimple`. */
  lemma AjusteDerechoSimple(v: Vertice<int>)
    requires v.Vertice? && v.izquierdo.Vertice?
    requires EsAVL(v.izquierdo) && EsAVL(v.derecho)
    requires Altura(v.izquierdo) == Altura(v.derecho) + 2
    requires BalanceVertice(v.izquierdo) != -1
    ensures var H := Altura(v.izquierdo) + 1;
      var p0 := v.izquierdo;
      var y := p0.derecho;
      var vh := if y.Vertice? && y.dato == H - 2 then H - 1 else H - 2;
      var t := Vertice(p0.izquierdo, p0.elemento, if vh == H - 1 then H else H - 1, Vertice(y, v.elemento, vh, v.derecho));
      EsAVL(t) && H - 1 <= Altura(t) <= H
  {
    var H := Altura(v.izquierdo) + 1;
    var r, p0 := v.derecho, v.izquierdo;
    var x, y := p0.izquierdo, p0.derecho;
    CacheCorrecta(x);
    CacheCorrecta(y);
    assert Altura(r) == H - 3 && Altura(x) == H - 2 && p0.dato == H - 1;
    var vh := if y.Vertice? && y.dato == H - 2 then H - 1 else H - 2;
    var R1 := Vertice(y, v.elemento, vh, r);
    assert EsAVL(R1) && Altura(R1) == vh;
  }

  /** The repair of a vertex whose subtrees are AVL trees with heights at
      most two apart yields an AVL tree with the same in-order sequence,
      whose height is between the larger subtree height and one more; with
      heights at most one apart nothing rotates and the height is exactly
      one more.  After a rotation the second visit changes nothing. */
  lemma {:induction false} ReparaCorrecto(v: Vertice<int>)
    requires v.Vertice? && EsAVL(v.izquierdo) && EsAVL(v.derecho)
    requires -2 <= Altura(v.izquierdo) - Altura(v.derecho) <= 2
    ensures var r := Repara(v);
      EsAVL(r) && EnOrden(r) == EnOrden(v)
      && Max(Altura(v.izquierdo), Altura(v.derecho)) <= Altura(r) <= Max(Altura(v.izquierdo), Altura(v.derecho)) + 1
    ensures -1 <= Altura(v.izquierdo) - Altura(v.derecho) <= 1 ==>
      Altura(Repara(v)) == Max(Altura(v.izquierdo), Altura(v.derecho)) + 1
    ensures Paso(v).1 ==> Paso(Paso(v).0) == (Paso(v).0, false)
  {
    CacheCorrecta(v.izquierdo);
    CacheCorrecta(v.derecho);
    var H := AlturaVertice(v);
    var (w, giro) := Paso(v);
    if BalanceVertice(v) == -2 {
      AjusteIzquierdoCorrecto(v);
      assert v.(dato := H).(dato := Altura(v.derecho) + 1) == v.(dato := H);
      PasoSobreAVL(w);
    } else if BalanceVertice(v) == 2 {
      AjusteDerechoCorrecto(v);
      PasoSobreAVL(w);
    } else {
      assert !giro;
    }
  }

  // ---------------------------------------------------------------------
  // Insertion

  /** `agrega` of the ordered tree (ties go left, the new vertex has
      `altura` 0) followed by `rebalanceo` from the new vertex's parent. */
  function InsertaAVL(v: Vertice<int>, x: int): Vertice<int>
  {
    match v
    case Nulo => Vertice(Nulo, x, 0, Nulo)
    case Vertice(i, e, h, d) =>
      if x <= e then Repara(Vertice(InsertaAVL(i, x), e, h, d))
      else Repara(Vertice(i, e, h, InsertaAVL(d, x)))
  }

  /** The rotations do not change the in-order sequence: it is the one of
      the plain ordered-tree insertion. */
  lemma {:induction false} InsertaAVLEnOrden(v: Vertice<int>, x: int)
    ensures EnOrden(InsertaAVL(v, x)) == EnOrden(Inserta(v, x, 0))
  {
    match v
    case Nulo =>
    case Vertice(i, e, h, d) =>
      if x <= e { InsertaAVLEnOrden(i, x); } else { InsertaAVLEnOrden(d, x); }
  }

  /** Insertion into an AVL tree gives an AVL tree at most one level taller. */
  lemma {:induction false} InsertaAVLForma(v: Vertice<int>, x: int)
    requires EsAVL(v)
    ensures EsAVL(InsertaAVL(v, x))
    ensures Altura(v) <= Altura(InsertaAVL(v, x)) <= Altura(v) + 1
  {
    match v
    case Nulo =>
    case Vertice(i, e, h, d) =>
      if x <= e {
        InsertaAVLForma(i, x);
        ReparaCorrecto(Vertice(InsertaAVL(i, x), e, h, d));
      } else {
        InsertaAVLForma(d, x);
        ReparaCorrecto(Vertice(i, e, h, InsertaAVL(d, x)));
      }
  }

  /** `agrega(e)`: null throws IllegalArgumentException; otherwise the count
      rises by one and the element is inserted and rebalanced. */
  function Agrega(a: Arbol<int>, e: Option<int>): (r: Result<Arbol<int>>)
    ensures e.None? <==> r.Err?
    ensures r.Err? ==> r.error == ArgumentoIlegal
    ensures r.Ok? ==> r.value.elementos == a.elementos + 1
  {
    match e
    case None => Err(ArgumentoIlegal)
    case Some(x) => Ok(Arbol(InsertaAVL(a.raiz, x), a.elementos + 1))
  }

  /** Adding keeps the invariant and the count, and adds exactly the element. */
  lemma AgregaCorrecto(a: Arbol<int>, x: int)
    requires Valido(a.raiz) && Contado(a)
    ensures var b := Agrega(a, Some(x)).value;
      Valido(b.raiz) && Contado(b) && Elementos(b.raiz) == Elementos(a.raiz) + multiset{x}
      && EnOrden(b.raiz) == EnOrden(Inserta(a.raiz, x, 0))
  {
    var r := InsertaAVL(a.raiz, x);
    InsertaAVLForma(a.raiz, x);
    InsertaAVLEnOrden(a.raiz, x);
    var bst := Inserta(a.raiz, x, 0);
    RecorridosCompletos(r);
    RecorridosCompletos(bst);
    ABBSiiEnOrdenOrdenado(r);
    ABBSiiEnOrdenOrdenado(bst);
    TamanoElementos(a.raiz);
    TamanoElementos(r);
  }

  // ---------------------------------------------------------------------
  // Deletion

  /** Splice out the maximum of a subtree (the vertex reached by right
      children), repairing every vertex above it on the way back; returns
      the new subtree and the element taken out. */
  function EliminaMaximoAVL(v: Vertice<int>): (r: (Vertice<int>, int))
    requires v.Vertice?
    ensures EnOrden(r.0) + [r.1] == EnOrden(v)
    decreases Tamano(v)
  {
    if v.derecho.Nulo? then (v.izquierdo, v.elemento)
    else
      var (d, m) := EliminaMaximoAVL(v.derecho);
      (Repara(Vertice(v.izquierdo, v.elemento, v.dato, d)), m)
  }

  lemma {:induction false} EliminaMaximoAVLForma(v: Vertice<int>)
    requires v.Vertice? && EsAVL(v)
    ensures EsAVL(EliminaMaximoAVL(v).0)
    ensures Altura(v) - 1 <= Altura(EliminaMaximoAVL(v).0) <= Altura(v)
    decreases Tamano(v)
  {
    if v.derecho.Vertice? {
      EliminaMaximoAVLForma(v.derecho);
      ReparaCorrecto(Vertice(v.izquierdo, v.elemento, v.dato, EliminaMaximoAVL(v.derecho).0));
    }
  }

  /** `elimina` once the element is known to be present: the descent of
      `busca`; at the found vertex, with two children its element is
      replaced by the maximum of its left subtree, which is spliced out,
      otherwise the vertex is replaced by its only child (or nothing); every
      vertex above the spliced one is repaired on the way back. */
  function EliminaAVL(v: Vertice<int>, x: int): Vertice<int>
  {
    match v
    case Nulo => Nulo
    case Vertice(i, e, h, d) =>
      if e == x then
        if i.Vertice? && d.Vertice? then
          var (i2, m) := EliminaMaximoAVL(i);
          Repara(Vertice(i2, m, h, d))
        else if d.Nulo? then i else d
      else if x < e then Repara(Vertice(EliminaAVL(i, x), e, h, d))
      else Repara(Vertice(i, e, h, EliminaAVL(d, x)))
  }

  /** Deletion from an AVL tree gives an AVL tree at most one level lower. */
  lemma {:induction false} EliminaAVLForma(v: Vertice<int>, x: int)
    requires EsAVL(v)
    ensures EsAVL(EliminaAVL(v, x))
    ensures Altura(v) - 1 <= Altura(EliminaAVL(v, x)) <= Altura(v)
  {
    match v
    case Nulo =>
    case Vertice(i, e, h, d) =>
      if e == x {
        if i.Vertice? && d.Vertice? {
          EliminaMaximoAVLForma(i);
          var (i2, m) := EliminaMaximoAVL(i);
          assert EliminaAVL(v, x) == Repara(Vertice(i2, m, h, d));
          RepararTrasBajar(i, i2, m, h, d, true);
        }
      } else if x < e {
        EliminaAVLForma(i, x);
        EliminaAVLIzquierdaForma(v, x);
        RepararTrasBajar(i, EliminaAVL(i, x), e, h, d, true);
      } else {
        EliminaAVLForma(d, x);
        EliminaAVLDerechaForma(v, x);
        RepararTrasBajar(d, EliminaAVL(d, x), e, h, i, false);
      }
  }

  /** Repairing a vertex one of whose balanced subtrees, `viejo`, became
      `nuevo`, at most one level lower: balanced again, at most one level
      lower than before. */
  lemma RepararTrasBajar(viejo: Vertice<int>, nuevo: Vertice<int>, e: int, h: int, otro: Vertice<int>,
                         izquierdo: bool)
    requires EsAVL(viejo) && EsAVL(nuevo) && EsAVL(otro)
    requires -1 <= Altura(viejo) - Altura(otro) <= 1
    requires Altura(viejo) - 1 <= Altura(nuevo) <= Altura(viejo)
    ensures var r := Repara(if izquierdo then Vertice(nuevo, e, h, otro) else Vertice(otro, e, h, nuevo));
      EsAVL(r) && Max(Altura(viejo), Altura(otro)) <= Altura(r) <= Max(Altura(viejo), Altura(otro)) + 1
  {
    ReparaCorrecto(if izquierdo then Vertice(nuevo, e, h, otro) else Vertice(otro, e, h, nuevo));
  }

  /** On an ordered tree holding `x`, deletion takes one occurrence of `x`
      out of the in-order sequence. */
  lemma {:induction false} EliminaAVLEnOrden(v: Vertice<int>, x: int) returns (k: nat)
    requires EsABB(v) && x in Elementos(v)
    ensures k < |EnOrden(v)| && EnOrden(v)[k] == x
    ensures EnOrden(EliminaAVL(v, x)) == SinPosicion(EnOrden(v), k)
  {
    var i, e, d := v.izquierdo, v.elemento, v.derecho;
    if e == x {
      k := EncontradoEnOrden(v);
    } else if x < e {
      assert x in Elementos(i) by {
        assert forall y :: y in Elementos(d) ==> e <= y;
      }
      var k2 := EliminaAVLEnOrden(i, x);
      k := BajaIzquierdaEnOrden(v, x, k2);
    } else {
      assert x in Elementos(d) by {
        assert forall y :: y in Elementos(i) ==> y <= e;
      }
      var k2 := EliminaAVLEnOrden(d, x);
      k := BajaDerechaEnOrden(v, x, k2);
    }
  }

  lemma EncontradoEnOrden(v: Vertice<int>) returns (k: nat)
    requires v.Vertice?
    ensures k < |EnOrden(v)| && EnOrden(v)[k] == v.elemento
    ensures EnOrden(EliminaAVL(v, v.elemento)) == SinPosicion(EnOrden(v), k)
  {
    var i, e, h, d := v.izquierdo, v.elemento, v.dato, v.derecho;
    var L, R := EnOrden(i), EnOrden(d);
    k := |L|;
    SinPosicionMedio(EnOrden(v), L, e, R);
    if i.Vertice? && d.Vertice? {
      var (i2, m) := EliminaMaximoAVL(i);
      assert EliminaAVL(v, e) == Repara(Vertice(i2, m, h, d));
      assert EnOrden(i2) + [m] == L;
    }
  }

  lemma BajaIzquierdaEnOrden(v: Vertice<int>, x: int, k2: nat) returns (k: nat)
    requires v.Vertice? && x < v.elemento
    requires k2 < |EnOrden(v.izquierdo)| && EnOrden(v.izquierdo)[k2] == x
    requires EnOrden(EliminaAVL(v.izquierdo, x)) == SinPosicion(EnOrden(v.izquierdo), k2)
    ensures k < |EnOrden(v)| && EnOrden(v)[k] == x
    ensures EnOrden(EliminaAVL(v, x)) == SinPosicion(EnOrden(v), k)
  {
    var L, R := EnOrden(v.izquierdo), EnOrden(v.derecho);
    k := k2;
    EliminaAVLIzquierda(v, x);
    assert EnOrden(v) == L + [v.elemento] + R;
    SinPosicionIzquierda(L, v.elemento, R, k2);
  }

  lemma BajaDerechaEnOrden(v: Vertice<int>, x: int, k2: nat) returns (k: nat)
    requires v.Vertice? && v.elemento < x
    requires k2 < |EnOrden(v.derecho)| && EnOrden(v.derecho)[k2] == x
    requires EnOrden(EliminaAVL(v.derecho, x)) == SinPosicion(EnOrden(v.derecho), k2)
    ensures k < |EnOrden(v)| && EnOrden(v)[k] == x
    ensures EnOrden(EliminaAVL(v, x)) == SinPosicion(EnOrden(v), k)
  {
    var L, R := EnOrden(v.izquierdo), EnOrden(v.derecho);
    k := |L| + 1 + k2;
    EliminaAVLDerecha(v, x);
    assert EnOrden(v) == L + [v.elemento] + R;
    SinPosicionDerecha(L, v.elemento, R, k2);
  }

  /** Deleting an element below the vertex's deletes it on the left. */
  lemma EliminaAVLIzquierda(v: Vertice<int>, x: int)
    requires v.Vertice? && x < v.elemento
    ensures EnOrden(EliminaAVL(v, x)) == EnOrden(EliminaAVL(v.izquierdo, x)) + [v.elemento] + EnOrden(v.derecho)
  {
    EliminaAVLIzquierdaForma(v, x);
    EnOrdenRepara(EliminaAVL(v.izquierdo, x), v.elemento, v.dato, v.derecho);
  }

  lemma EliminaAVLIzquierdaForma(v: Vertice<int>, x: int)
    requires v.Vertice? && x < v.elemento
    ensures EliminaAVL(v, x) == Repara(Vertice(EliminaAVL(v.izquierdo, x), v.elemento, v.dato, v.derecho))
  {
  }

  /** Deleting an element above the vertex's deletes it on the right. */
  lemma EliminaAVLDerecha(v: Vertice<int>, x: int)
    requires v.Vertice? && v.elemento < x
    ensures EnOrden(EliminaAVL(v, x)) == EnOrden(v.izquierdo) + [v.elemento] + EnOrden(EliminaAVL(v.derecho, x))
  {
    EliminaAVLDerechaForma(v, x);
    EnOrdenRepara(v.izquierdo, v.elemento, v.dato, EliminaAVL(v.derecho, x));
  }

  lemma EliminaAVLDerechaForma(v: Vertice<int>, x: int)
    requires v.Vertice? && v.elemento < x
    ensures EliminaAVL(v, x) == Repara(Vertice(v.izquierdo, v.elemento, v.dato, EliminaAVL(v.derecho, x)))
  {
  }

  /** Repairing a vertex keeps the in-order sequence of its parts. */
  lemma EnOrdenRepara(i: Vertice<int>, e: int, h: int, d: Vertice<int>)
    ensures EnOrden(Repara(Vertice(i, e, h, d))) == EnOrden(i) + [e] + EnOrden(d)
  {
    assert EnOrden(Vertice(i, e, h, d)) == EnOrden(i) + [e] + EnOrden(d);
  }

  /** `elimina(e)`: `busca` returns null on an empty tree and the call does
      nothing; on a non-empty tree a null element reaches `compareTo(null)`
      (NullPointerException); an absent element changes nothing; otherwise
      the count drops by one and the element is deleted and rebalanced. */
  function Elimina(a: Arbol<int>, e: Option<int>): (r: Result<Arbol<int>>)
    ensures r.Err? <==> a.raiz.Vertice? && e.None?
    ensures r.Err? ==> r.error == ApuntadorNulo
  {
    if a.raiz.Nulo? then Ok(a)
    else if e.None? then Err(ApuntadorNulo)
    else match BuscaABB(a.raiz, e.value)
      case None => Ok(a)
      case Some(_) => Ok(Arbol(EliminaAVL(a.raiz, e.value), a.elementos - 1))
  }

  /** Deleting keeps the invariant and the count and removes one copy of a
      present element from the in-order sequence; an absent element leaves
      the tree unchanged. */
  lemma EliminaCorrecto(a: Arbol<int>, x: int)
    requires Valido(a.raiz) && Contado(a)
    ensures Elimina(a, Some(x)).Ok?
    ensures var b := Elimina(a, Some(x)).value;
      Valido(b.raiz) && Contado(b)
      && Elementos(b.raiz) == Elementos(a.raiz) - multiset{x}
      && (x !in Elementos(a.raiz) ==> b == a)
      && (x in Elementos(a.raiz) ==>
            exists k :: 0 <= k < |EnOrden(a.raiz)| && EnOrden(a.raiz)[k] == x
                        && EnOrden(b.raiz) == SinPosicion(EnOrden(a.raiz), k))
  {
    if x in Elementos(a.raiz) {
      var r := EliminaAVL(a.raiz, x);
      var k := EliminaAVLEnOrden(a.raiz, x);
      EliminaAVLForma(a.raiz, x);
      var u := EnOrden(a.raiz);
      assert Elementos(r) == Elementos(a.raiz) - multiset{x} by {
        RecorridosCompletos(a.raiz);
        RecorridosCompletos(r);
        SinPosicionMultiset(u, k);
      }
      assert EsABB(r) by {
        ABBSiiEnOrdenOrdenado(a.raiz);
        OrdenadaSinPosicion(u, k);
        ABBSiiEnOrdenOrdenado(r);
      }
      TamanoElementos(a.raiz);
      TamanoElementos(r);
    } else {
      assert Elementos(a.raiz) - multiset{x} == Elementos(a.raiz);
    }
  }

  // ---------------------------------------------------------------------
  // The height bound

  /** The fewest vertices an AVL tree of height `h` can have. */
  function MinimoAVL(h: int): nat
    decreases h + 1
  {
    if h < 0 then 0 else if h == 0 then 1 else 1 + MinimoAVL(h - 1) + MinimoAVL(h - 2)
  }

  lemma {:induction false} MinimoAVLCreciente(a: int, b: int)
    requires -1 <= a <= b
    ensures MinimoAVL(a) <= MinimoAVL(b)
    decreases b - a
  {
    if a < b {
      MinimoAVLCreciente(a, b - 1);
    }
  }

  lemma {:induction false} MinimoAVLCota(h: int)
    requires h >= -1
    ensures Potencia2((h + 1) / 2) <= MinimoAVL(h) + 1
    decreases h + 1
  {
    if h >= 1 {
      MinimoAVLCota(h - 2);
      MinimoAVLCreciente(h - 2, h - 1);
      assert (h + 1) / 2 == (h - 1) / 2 + 1;
    }
  }

  /** An AVL tree of height `h` has at least `MinimoAVL(h)` vertices, so its
      height is at most about twice the logarithm of its size. */
  lemma AlturaLogaritmica(v: Vertice<int>)
    requires EsAVL(v)
    ensures MinimoAVL(Altura(v)) <= Tamano(v)
    ensures Potencia2((Altura(v) + 1) / 2) <= Tamano(v) + 1
  {
    MinimoVertices(v);
    MinimoAVLCota(Altura(v));
  }

  lemma {:induction false} MinimoVertices(v: Vertice<int>)
    requires EsAVL(v)
    ensures MinimoAVL(Altura(v)) <= Tamano(v)
  {
    match v
    case Nulo =>
    case Vertice(i, _, _, d) =>
      MinimoVertices(i);
      MinimoVertices(d);
      MinimoPaso(Altura(i), Altura(d), Tamano(i), Tamano(d));
  }

  /** Two balanced subtrees with at least the least sizes of their heights
      give a vertex with at least the least size of its height. */
  lemma MinimoPaso(hi: int, hd: int, ti: nat, td: nat)
    requires hi >= -1 && hd >= -1 && -1 <= hi - hd <= 1
    requires MinimoAVL(hi) <= ti && MinimoAVL(hd) <= td
    ensures MinimoAVL(1 + Max(hi, hd)) <= 1 + ti + td
  {
    var h := 1 + Max(hi, hd);
    if h >= 1 {
      if hi >= hd {
        MinimoAVLCreciente(h - 2, hd);
      } else {
        MinimoAVLCreciente(h - 2, hi);
      }
    }
  }

  // ---------------------------------------------------------------------
  // The written left rotation inside `rebalanceo`

  /** The tree `agrega` builds from 5, 5, 5, 5 and 6 (ties go left): only
      right rotations occur, and it is 5(5(5, -), 5(-, 6)) in the source
      too. */
  lemma CincoInserciones()
    ensures InsertaAVL(InsertaAVL(InsertaAVL(InsertaAVL(InsertaAVL(Nulo, 5), 5), 5), 5), 6)
            == Vertice(Vertice(Vertice(Nulo, 5, 0, Nulo), 5, 1, Nulo), 5, 2,
                       Vertice(Nulo, 5, 1, Vertice(Nulo, 6, 0, Nulo)))
  {
    var h5 := Vertice(Nulo, 5, 0, Nulo);
    var h6 := Vertice(Nulo, 6, 0, Nulo);
    var l5 := Vertice(h5, 5, 1, Nulo);
    assert InsertaAVL(Nulo, 5) == h5;
    assert InsertaAVL(h5, 5) == l5;
    assert InsertaAVL(l5, 5) == Vertice(h5, 5, 1, h5) by {
      assert Paso(Vertice(l5, 5, 1, Nulo)) == (Vertice(h5, 5, 1, h5), true);
    }
    assert InsertaAVL(Vertice(h5, 5, 1, h5), 5) == Vertice(l5, 5, 2, h5);
    assert InsertaAVL(h5, 6) == Vertice(Nulo, 5, 1, h6);
    assert InsertaAVL(Vertice(l5, 5, 2, h5), 6) == Vertice(l5, 5, 2, Vertice(Nulo, 5, 1, h6));
  }

  /** The source's state when `rebalanceo` reaches the root's right child
      after 7 is added to that tree, and the written rotation there. */
  lemma RotacionEscritaAVL()
    ensures
      var h5 := Vertice(Nulo, 5, 0, Nulo);
      var t5 := Vertice(Vertice(h5, 5, 1, Nulo), 5, 2, Vertice(Nulo, 5, 1, Vertice(Nulo, 6, 0, Nulo)));
      var t6 := Vertice(Vertice(h5, 5, 1, Nulo), 5, 2,
                        Vertice(Nulo, 5, 2, Vertice(Nulo, 6, 1, Vertice(Nulo, 7, 0, Nulo))));
      var escrito := GiraIzquierdaEscrita(Arbol(t6, 6), [true]).raiz;
      && Forma(t6) == Forma(Inserta(t5, 7, 0))
      && BalanceVertice(SubarbolEn(t6, [true])) == -2
      && BalanceVertice(SubarbolEn(t6, [true, true])) == -1
      && EnOrden(escrito) == [5, 6, 7, 5, 5] && !EsABB(escrito) && Tamano(escrito) == 5
  {
    var h5 := Vertice(Nulo, 5, 0, Nulo);
    var h7 := Vertice(Nulo, 7, 0, Nulo);
    var t6 := Vertice(Vertice(h5, 5, 1, Nulo), 5, 2, Vertice(Nulo, 5, 2, Vertice(Nulo, 6, 1, h7)));
    assert [true][1..] == [] && [true, true][1..] == [true];
    assert [true][..0] == [];
    var escrito := GiraIzquierdaEscrita(Arbol(t6, 6), [true]).raiz;
    assert escrito == Vertice(Vertice(Vertice(Nulo, 5, 2, Nulo), 6, 1, h7), 5, 2, Vertice(Nulo, 5, 2, Nulo));
    assert EnOrden(escrito) == [5, 6, 7, 5, 5];
    ABBSiiEnOrdenOrdenado(escrito);
    assert EnOrden(escrito)[1] > EnOrden(escrito)[3];
  }

  /** The tree of the first five insertions is a valid AVL tree. */
  lemma CincoInsercionesValido()
    ensures Valido(Vertice(Vertice(Vertice(Nulo, 5, 0, Nulo), 5, 1, Nulo), 5, 2,
                           Vertice(Nulo, 5, 1, Vertice(Nulo, 6, 0, Nulo))))
  {
    var t5 := Vertice(Vertice(Vertice(Nulo, 5, 0, Nulo), 5, 1, Nulo), 5, 2,
                      Vertice(Nulo, 5, 1, Vertice(Nulo, 6, 0, Nulo)));
    assert EsAVL(t5);
    assert EnOrden(t5) == [5, 5, 5, 5, 6];
    ABBSiiEnOrdenOrdenado(t5);
  }

  /** The ordered-tree insertion of 7 into the tree of the first five. */
  lemma SextaInsercionABB()
    ensures
      var t5 := Vertice(Vertice(Vertice(Nulo, 5, 0, Nulo), 5, 1, Nulo), 5, 2,
                        Vertice(Nulo, 5, 1, Vertice(Nulo, 6, 0, Nulo)));
      EnOrden(Inserta(t5, 7, 0)) == [5, 5, 5, 5, 6, 7]
  {
    var t5 := Vertice(Vertice(Vertice(Nulo, 5, 0, Nulo), 5, 1, Nulo), 5, 2,
                      Vertice(Nulo, 5, 1, Vertice(Nulo, 6, 0, Nulo)));
    var h7 := Vertice(Nulo, 7, 0, Nulo);
    var b := Vertice(Vertice(Vertice(Nulo, 5, 0, Nulo), 5, 1, Nulo), 5, 2,
                     Vertice(Nulo, 5, 1, Vertice(Nulo, 6, 0, h7)));
    assert Inserta(Vertice(Nulo, 6, 0, Nulo), 7, 0) == Vertice(Nulo, 6, 0, h7);
    assert Inserta(Vertice(Nulo, 5, 1, Vertice(Nulo, 6, 0, Nulo)), 7, 0)
        == Vertice(Nulo, 5, 1, Vertice(Nulo, 6, 0, h7));
    assert Inserta(t5, 7, 0) == b;
    assert EnOrden(Vertice(Vertice(Nulo, 5, 0, Nulo), 5, 1, Nulo)) == [5, 5];
    assert EnOrden(Vertice(Nulo, 5, 1, Vertice(Nulo, 6, 0, h7))) == [5, 6, 7];
    assert EnOrden(b) == [5, 5, 5, 5, 6, 7];
  }

  /** The model's `agrega` of 7 rotates by identity: a valid AVL tree
      holding all six elements in order. */
  lemma SextaInsercionAVL(a: Arbol<int>)
    requires a == Arbol(Vertice(Vertice(Vertice(Nulo, 5, 0, Nulo), 5, 1, Nulo), 5, 2,
                                Vertice(Nulo, 5, 1, Vertice(Nulo, 6, 0, Nulo))), 5)
    ensures Valido(a.raiz) && Contado(a)
    ensures var b := Agrega(a, Some(7)).value;
            Valido(b.raiz) && Contado(b) && EnOrden(b.raiz) == [5, 5, 5, 5, 6, 7]
  {
    SextaInsercionABB();
    assert Contado(a) by {
      assert Tamano(a.raiz) == 5;
    }
    CincoInsercionesValido();
    AgregaCorrecto(a, 7);
  }

  // ---------------------------------------------------------------------
  // Equality

  /** `VerticeAVL.equals`: equal cached heights at the two vertices and the
      same elements in the same shape below. */
  function IgualesVertice(a: Vertice<int>, b: Vertice<int>): (r: bool)
    ensures r ==> Forma(a) == Forma(b)
    ensures r <==> AlturaCache(a) == AlturaCache(b) && Forma(a) == Forma(b)
  {
    IgualesSiiMismaForma(a, b);
    AlturaCache(a) == AlturaCache(b) && Iguales(a, b)
  }
}
