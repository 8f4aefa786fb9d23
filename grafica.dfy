/** Simple undirected graphs: vertices kept in a list in the order they were
    added, each with the list of its neighbours and a colour used by the
    traversals. A vertex is identified by its element, which is unique in
    the graph. */
module Grafica {
  import opened Comun
  import opened Lista

  /** The degree of `x` in the adjacency map `g`. */
  function Grado(g: map<int, seq<int>>, x: int): nat
  {
    if x in g then |g[x]| else 0
  }

  /** The sum of the degrees of the vertices in `xs`. */
  function SumaGrados(g: map<int, seq<int>>, xs: seq<int>): int
  {
    if xs == [] then 0 else SumaGrados(g, xs[..|xs| - 1]) + Grado(g, xs[|xs| - 1])
  }

  /** The adjacency map describes a simple undirected graph: no vertex is
      listed twice as a neighbour, none is its own neighbour, every
      neighbour is a vertex, and adjacency is symmetric. */
  ghost predicate Simple(g: map<int, seq<int>>)
  {
    forall x :: x in g ==>
      && SinRepetidos(g[x])
      && x !in g[x]
      && (forall y :: y in g[x] ==> y in g && x in g[y])
  }

  /** The invariant of a graph with vertices `xs`, adjacency `g` and `n`
      edges counted: no vertex twice, one neighbour list per vertex, a
      simple adjacency, and each edge counted once at both of its ends. */
  ghost predicate Grafo(xs: seq<int>, g: map<int, seq<int>>, n: int)
  {
    && SinRepetidos(xs)
    && (forall x :: x in g <==> x in xs)
    && Simple(g)
    && 2 * n == SumaGrados(g, xs)
  }

  /** The adjacency after `conecta(a, b)`. */
  function Conectada(g: map<int, seq<int>>, a: int, b: int): map<int, seq<int>>
    requires a in g && b in g
  {
    g[a := g[a] + [b]][b := g[b] + [a]]
  }

  /** The adjacency after `desconecta(a, b)`. */
  function Desconectada(g: map<int, seq<int>>, a: int, b: int): map<int, seq<int>>
    requires a in g && b in g
  {
    g[a := SinElemento(g[a], b)][b := SinElemento(g[b], a)]
  }

  /** The adjacency after `elimina(x)`: the vertex and every mention of it
      are gone. */
  function VecinosSin(g: map<int, seq<int>>, x: int): map<int, seq<int>>
  {
    map y | y in g && y != x :: SinElemento(g[y], x)
  }

  /** `p` is a path of `g`: consecutive vertices are neighbours. */
  ghost predicate Camino(g: map<int, seq<int>>, p: seq<int>)
  {
    && |p| > 0
    && (forall i :: 0 <= i < |p| ==> p[i] in g)
    && (forall i :: 0 < i < |p| ==> p[i] in g[p[i - 1]])
  }

  ghost predicate CaminoDe(g: map<int, seq<int>>, p: seq<int>, v: int, y: int)
  {
    Camino(g, p) && p[0] == v && p[|p| - 1] == y
  }

  /** Some path of `g` leads from `v` to `y`. */
  ghost predicate Alcanzable(g: map<int, seq<int>>, v: int, y: int)
  {
    exists p :: CaminoDe(g, p, v, y)
  }

  /** `t` visits, once each, exactly the vertices reachable from `v`,
      starting with `v`. */
  ghost predicate RecorridoDe(g: map<int, seq<int>>, v: int, t: seq<int>)
  {
    && SinRepetidos(t)
    && |t| > 0 && t[0] == v
    && (forall y :: y in t <==> y in g && Alcanzable(g, v, y))
  }

  /** The state of a traversal of `g` from `v`: `t` is what has been
      visited, `w` what is waiting in the queue or stack; both are black,
      the rest red, and each has a path from `v`, witnessed by `caminos`. */
  ghost predicate Recorriendo(g: map<int, seq<int>>, c: map<int, Color>, t: seq<int>, w: seq<int>,
                              caminos: map<int, seq<int>>, v: int)
  {
    && SinRepetidos(t) && SinRepetidos(w)
    && (forall x :: x in t ==> x !in w)
    && (forall x :: x in c ==> c[x] == if x in t || x in w then Negro else Rojo)
    && (forall x :: x in t || x in w ==> x in caminos && CaminoDe(g, caminos[x], v, x))
  }

  /** What `setColor` receives: a vertex handed out by a graph, known by the
      graph that owns it and its element, an object of some other class, or
      `null`. */
  datatype Manija = DeGrafica(duena: object, elemento: int) | Ajena | Nula

  // ---------------------------------------------------------------------
  // The degree sum

  lemma SinRepetidosUltimo(xs: seq<int>)
    requires SinRepetidos(xs) && xs != []
    ensures SinRepetidos(xs[..|xs| - 1]) && xs[|xs| - 1] !in xs[..|xs| - 1]
  {
  }

  /** Replacing one neighbour list changes the degree sum by the change of
      its length. */
  lemma {:induction false} SumaActualiza(g: map<int, seq<int>>, xs: seq<int>, a: int, s: seq<int>)
    requires SinRepetidos(xs)
    ensures SumaGrados(g[a := s], xs) == SumaGrados(g, xs) + (if a in xs then |s| - Grado(g, a) else 0)
  {
    if xs != [] {
      var ys, z := xs[..|xs| - 1], xs[|xs| - 1];
      assert xs == ys + [z];
      SinRepetidosUltimo(xs);
      SumaActualiza(g, ys, a, s);
    }
  }

  /** Taking a vertex out of the list takes its degree out of the sum. */
  lemma {:induction false} SumaSinPosicion(g: map<int, seq<int>>, xs: seq<int>, k: nat)
    requires k < |xs|
    ensures SumaGrados(g, SinPosicion(xs, k)) == SumaGrados(g, xs) - Grado(g, xs[k])
  {
    var ys, z := xs[..|xs| - 1], xs[|xs| - 1];
    var r := SinPosicion(xs, k);
    if k == |xs| - 1 {
      assert r == ys;
    } else {
      SumaSinPosicion(g, ys, k);
      assert r[..|r| - 1] == SinPosicion(ys, k);
      assert r[|r| - 1] == z;
    }
  }

  /** The sum only depends on the degrees of the vertices summed. */
  lemma {:induction false} SumaIgual(g: map<int, seq<int>>, h: map<int, seq<int>>, xs: seq<int>)
    requires forall x :: x in xs ==> Grado(g, x) == Grado(h, x)
    ensures SumaGrados(g, xs) == SumaGrados(h, xs)
  {
    if xs != [] {
      var ys := xs[..|xs| - 1];
      assert forall x :: x in ys ==> x in xs;
      SumaIgual(g, h, ys);
    }
  }

  lemma SumaAgregado(g: map<int, seq<int>>, xs: seq<int>, x: int)
    ensures SumaGrados(g, xs + [x]) == SumaGrados(g, xs) + Grado(g, x)
  {
    assert (xs + [x])[..|xs|] == xs;
  }

  // ---------------------------------------------------------------------
  // Round trips on the adjacency

  /** Taking out the element just appended gives back the sequence. */
  lemma SinElementoAgregado(s: seq<int>, x: int)
    requires x !in s
    ensures SinElemento(s + [x], x) == s
  {
    assert (s + [x])[..|s|] == s;
  }

  /** `desconecta(a, b)` undoes `conecta(a, b)`. */
  lemma DesconectaDeshaceConecta(g: map<int, seq<int>>, a: int, b: int)
    requires a in g && b in g && a != b && b !in g[a] && a !in g[b]
    ensures Desconectada(Conectada(g, a, b), a, b) == g
  {
    SinElementoAgregado(g[a], b);
    SinElementoAgregado(g[b], a);
  }

  /** `elimina(x)` undoes `agrega(x)`. */
  lemma EliminaDeshaceAgrega(g: map<int, seq<int>>, xs: seq<int>, x: int)
    requires Simple(g) && x !in g && x !in xs
    ensures VecinosSin(g[x := []], x) == g
    ensures SinElemento(xs + [x], x) == xs
  {
    SinElementoAgregado(xs, x);
    var h := VecinosSin(g[x := []], x);
    forall y | y in g ensures h[y] == g[y] {
      assert x !in g[y];
    }
  }

  // ---------------------------------------------------------------------
  // Paths

  lemma CaminoExtendido(g: map<int, seq<int>>, p: seq<int>, v: int, x: int, z: int)
    requires CaminoDe(g, p, v, x) && z in g && z in g[x]
    ensures CaminoDe(g, p + [z], v, z)
  {
    var q := p + [z];
    forall i | 0 < i < |q| ensures q[i] in g[q[i - 1]] {
      if i < |p| {
        assert q[i] == p[i] && q[i - 1] == p[i - 1];
      }
    }
  }

  /** A path that starts in a set closed under taking neighbours never
      leaves it. */
  lemma {:induction false} CaminoCerrado(g: map<int, seq<int>>, p: seq<int>, t: seq<int>)
    requires Camino(g, p) && p[0] in t
    requires forall x, z :: x in t && x in g && z in g[x] ==> z in t
    ensures p[|p| - 1] in t
  {
    if |p| > 1 {
      var q := p[..|p| - 1];
      forall i | 0 <= i < |q| ensures q[i] in g {
        assert q[i] == p[i];
      }
      forall i | 0 < i < |q| ensures q[i] in g[q[i - 1]] {
        assert q[i] == p[i] && q[i - 1] == p[i - 1];
      }
      CaminoCerrado(g, q, t);
      assert p[|p| - 1] in g[q[|q| - 1]];
    }
  }

  /** Adjacency being symmetric, so is reachability. */
  lemma AlcanzableSimetrico(g: map<int, seq<int>>, v: int, y: int)
    requires Simple(g) && Alcanzable(g, v, y)
    ensures Alcanzable(g, y, v)
  {
    var p :| CaminoDe(g, p, v, y);
    var n := |p|;
    var q := seq(n, i requires 0 <= i < n => p[n - 1 - i]);
    forall i | 0 < i < n ensures q[i] in g[q[i - 1]] {
      var j := n - i;
      assert p[j] in g[p[j - 1]];
      assert q[i] == p[j - 1] && q[i - 1] == p[j];
    }
    assert CaminoDe(g, q, y, v);
  }

  /** Reachability is transitive. */
  lemma AlcanzableTransitivo(g: map<int, seq<int>>, a: int, b: int, c: int)
    requires Alcanzable(g, a, b) && Alcanzable(g, b, c)
    ensures Alcanzable(g, a, c)
  {
    var p :| CaminoDe(g, p, a, b);
    var q :| CaminoDe(g, q, b, c);
    var r := p + q[1..];
    forall i | 0 < i < |r| ensures r[i] in g[r[i - 1]] {
      if i < |p| {
        assert r[i] == p[i] && r[i - 1] == p[i - 1];
      } else {
        var k := i - |p| + 1;
        assert r[i] == q[k] && r[i - 1] == q[k - 1];
      }
    }
    assert CaminoDe(g, r, a, c);
  }

  /** Reaching every vertex from one of them, as `esConexa` checks, is
      enough for every vertex to reach every other. */
  lemma ConexaEntreTodos(g: map<int, seq<int>>, x0: int, a: int, b: int)
    requires Simple(g) && a in g && b in g
    requires forall y :: y in g ==> Alcanzable(g, x0, y)
    ensures Alcanzable(g, a, b)
  {
    AlcanzableSimetrico(g, x0, a);
    AlcanzableTransitivo(g, a, x0, b);
  }

  // ---------------------------------------------------------------------

  class Grafica {
    /** The elements of the vertices, in the order they were added. */
    var elementos: seq<int>
    /** The neighbours of each vertex, in the order they were connected. */
    var vecinos: map<int, seq<int>>
    var colores: map<int, Color>
    var aristas: int

    ghost predicate Valido()
      reads this
    {
      && Grafo(elementos, vecinos, aristas)
      && (forall x :: x in colores <==> x in elementos)
    }

    constructor ()
      ensures Valido() && elementos == [] && vecinos == map[] && aristas == 0
    {
      elementos, vecinos, colores, aristas := [], map[], map[], 0;
    }

    /** `getElementos()`. */
    function GetElementos(): (n: nat)
      reads this
      ensures n == |elementos|
    {
      |elementos|
    }

    /** `getAristas()`: half the sum of the degrees. */
    function GetAristas(): (n: int)
      requires Valido()
      reads this
      ensures 2 * n == SumaGrados(vecinos, elementos)
    {
      aristas
    }

    /** `esVacia()`. */
    method EsVacia() returns (b: bool)
      requires Valido()
      ensures b <==> vecinos == map[]
    {
      if elementos != [] {
        var x := elementos[0];
        assert x in elementos;
        assert x in vecinos;
      } else {
        assert forall x :: x !in vecinos;
      }
      b := elementos == [];
    }

    /** `buscaVertice(elemento)`: the position of the vertex, scanning in
        order of insertion. */
    method BuscaVertice(e: int) returns (r: Option<nat>)
      ensures r == if e in elementos then Some(Posicion(elementos, e) as nat) else None
    {
      var i := 0;
      while i < |elementos|
        invariant 0 <= i <= |elementos|
        invariant e !in elementos[..i]
      {
        if elementos[i] == e {
          PosicionUnica(elementos, e, i);
          return Some(i);
        }
        assert elementos[..i + 1] == elementos[..i] + [elementos[i]];
        i := i + 1;
      }
      assert elementos[..i] == elementos;
      return None;
    }

    /** `contiene(elemento)`. */
    method Contiene(e: int) returns (b: bool)
      ensures b <==> e in elementos
    {
      var r := BuscaVertice(e);
      b := r.Some?;
    }

    /** `agrega(elemento)`: a new isolated vertex at the end. */
    method Agrega(e: Option<int>) returns (r: Outcome)
      requires Valido()
      modifies this
      ensures Valido()
      ensures e.None? || e.value in old(elementos) ==> r == Fail(ArgumentoIlegal) && unchanged(this)
      ensures e.Some? && e.value !in old(elementos) ==>
        && r == Pass
        && elementos == old(elementos) + [e.value]
        && vecinos == old(vecinos)[e.value := []]
        && colores == old(colores)[e.value := Ninguno]
        && aristas == old(aristas)
    {
      if e.None? {
        return Fail(ArgumentoIlegal);
      }
      var x := e.value;
      var buscado := BuscaVertice(x);
      if buscado.Some? {
        return Fail(ArgumentoIlegal);
      }
      AgregaConserva(elementos, vecinos, aristas, x);
      elementos := elementos + [x];
      vecinos := vecinos[x := []];
      colores := colores[x := Ninguno];
      return Pass;
    }

    /** `sonVecinos(a, b)`. */
    method SonVecinos(a: int, b: int) returns (r: Result<bool>)
      requires Valido()
      ensures a !in elementos || b !in elementos ==> r == Err(ElementoInexistente)
      ensures a in elementos && b in elementos ==>
        r.Ok? && (r.value <==> b in vecinos[a]) && (r.value <==> a in vecinos[b])
    {
      var aa := BuscaVertice(a);
      var bb := BuscaVertice(b);
      if aa.None? || bb.None? {
        return Err(ElementoInexistente);
      }
      return Ok(b in vecinos[a] && a in vecinos[b]);
    }

    /** `conecta(a, b)`: a new edge, at the end of both neighbour lists. */
    method Conecta(oa: Option<int>, ob: Option<int>) returns (r: Outcome)
      requires Valido()
      modifies this
      ensures Valido()
      ensures oa.None? ==> r == Fail(ApuntadorNulo) && unchanged(this)
      ensures oa.Some? && ob.None? ==> r == Fail(ElementoInexistente) && unchanged(this)
      ensures oa.Some? && ob.Some? ==>
        var a, b := oa.value, ob.value;
        && (a == b ==> r == Fail(ArgumentoIlegal) && unchanged(this))
        && (a != b && (a !in old(elementos) || b !in old(elementos)) ==>
              r == Fail(ElementoInexistente) && unchanged(this))
        && (a != b && a in old(elementos) && b in old(elementos) && b in old(vecinos)[a] ==>
              r == Fail(ArgumentoIlegal) && unchanged(this))
        && (a != b && a in old(elementos) && b in old(elementos) && b !in old(vecinos)[a] ==>
              && r == Pass
              && vecinos == Conectada(old(vecinos), a, b)
              && aristas == old(aristas) + 1
              && elementos == old(elementos) && colores == old(colores))
    {
      // `a.equals(b)` dereferences `a`; `equals(null)` is false, and
      // `buscaVertice(null)` finds nothing, since `agrega` refuses null.
      if oa.None? {
        return Fail(ApuntadorNulo);
      }
      if ob.None? {
        return Fail(ElementoInexistente);
      }
      var a, b := oa.value, ob.value;
      if a == b {
        return Fail(ArgumentoIlegal);
      }
      var aa := BuscaVertice(a);
      var bb := BuscaVertice(b);
      if aa.None? || bb.None? {
        return Fail(ElementoInexistente);
      }
      var sv := SonVecinos(a, b);
      if sv == Ok(true) {
        return Fail(ArgumentoIlegal);
      }
      ConectaConserva(elementos, vecinos, aristas, a, b);
      aristas := aristas + 1;
      vecinos := Conectada(vecinos, a, b);
      return Pass;
    }

    /** `desconecta(a, b)`: the edge taken out of both neighbour lists. */
    method Desconecta(a: int, b: int) returns (r: Outcome)
      requires Valido()
      modifies this
      ensures Valido()
      ensures a !in old(elementos) || b !in old(elementos) ==>
        r == Fail(ElementoInexistente) && unchanged(this)
      ensures a in old(elementos) && b in old(elementos) && b !in old(vecinos)[a] ==>
        r == Fail(ArgumentoIlegal) && unchanged(this)
      ensures a in old(elementos) && b in old(elementos) && b in old(vecinos)[a] ==>
        && r == Pass
        && vecinos == Desconectada(old(vecinos), a, b)
        && aristas == old(aristas) - 1
        && elementos == old(elementos) && colores == old(colores)
    {
      var aa := BuscaVertice(a);
      var bb := BuscaVertice(b);
      if aa.None? || bb.None? {
        return Fail(ElementoInexistente);
      }
      var sv := SonVecinos(a, b);
      if sv == Ok(false) {
        return Fail(ArgumentoIlegal);
      }
      DesconectaConserva(elementos, vecinos, aristas, a, b);
      aristas := aristas - 1;
      vecinos := Desconectada(vecinos, a, b);
      return Pass;
    }

    /** `elimina(elemento)`: the vertex goes, with one edge less for each
        of its neighbours. */
    method Elimina(e: int) returns (r: Outcome)
      requires Valido()
      modifies this
      ensures Valido()
      ensures e !in old(elementos) ==> r == Fail(ElementoInexistente) && unchanged(this)
      ensures e in old(elementos) ==>
        && r == Pass
        && elementos == SinElemento(old(elementos), e)
        && vecinos == VecinosSin(old(vecinos), e)
        && colores == old(colores) - {e}
        && aristas == old(aristas) - |old(vecinos)[e]|
    {
      var buscado := BuscaVertice(e);
      if buscado.None? {
        return Fail(ElementoInexistente);
      }
      ghost var g0, xs0, n0 := vecinos, elementos, aristas;
      SinRepetidosSinElemento(xs0, e);
      elementos := SinElemento(elementos, e);
      forall v | v in g0[e] ensures v != e && v in elementos && v in g0 && e in g0[v] {
        assert v in xs0;
      }
      DesligaVecinos(e);
      assert aristas == n0 - |g0[e]|;
      EliminaConserva(xs0, g0, n0, e, vecinos);
      vecinos := vecinos - {e};
      colores := colores - {e};
      assert Grafo(elementos, vecinos, aristas);
      return Pass;
    }

    /** The loop of `elimina`: `e` leaves the neighbour list of each of its
        neighbours, with one edge less each time. The list of `e` itself
        stays as it was, since `e` is not its own neighbour. */
    method DesligaVecinos(e: int)
      requires e in vecinos && SinRepetidos(elementos) && SinRepetidos(vecinos[e])
      requires forall v :: v in vecinos[e] ==> v != e && v in elementos && v in vecinos && e in vecinos[v]
      modifies this
      ensures elementos == old(elementos) && colores == old(colores)
      ensures Desligados(old(vecinos), e, old(vecinos)[e], |old(vecinos)[e]|, vecinos, elementos)
      ensures aristas == old(aristas) - |old(vecinos)[e]|
    {
      ghost var g0 := vecinos;
      var ns := vecinos[e];
      var j := 0;
      while j < |ns|
        invariant 0 <= j <= |ns|
        invariant elementos == old(elementos) && colores == old(colores)
        invariant Desligados(g0, e, ns, j, vecinos, elementos)
        invariant aristas == old(aristas) - j
      {
        var v := ns[j];
        DesligaPaso(g0, e, ns, elementos, j, vecinos);
        vecinos := vecinos[v := SinElemento(vecinos[v], e)];
        aristas := aristas - 1;
        j := j + 1;
      }
    }

    /** `vertice(elemento)`: the last vertex holding the element. */
    method Vertice(e: int) returns (r: Result<int>)
      ensures r == if e in elementos then Ok(e) else Err(ElementoInexistente)
    {
      var buscada: Option<int> := None;
      var i := 0;
      while i < |elementos|
        invariant 0 <= i <= |elementos|
        invariant buscada == if e in elementos[..i] then Some(e) else None
      {
        if elementos[i] == e {
          buscada := Some(elementos[i]);
        }
        assert elementos[..i + 1] == elementos[..i] + [elementos[i]];
        i := i + 1;
      }
      assert elementos[..i] == elementos;
      if buscada.None? {
        return Err(ElementoInexistente);
      }
      return Ok(buscada.value);
    }

    /** `setColor(vertice, color)`: only objects of the graph's own vertex
        class are accepted; a vertex of another graph, or one no longer in
        this graph, is painted without this graph changing. */
    method SetColor(m: Manija, c: Color) returns (r: Outcome)
      requires Valido()
      modifies this
      ensures Valido()
      ensures m.Nula? ==> r == Fail(ApuntadorNulo) && unchanged(this)
      ensures m.Ajena? ==> r == Fail(ArgumentoIlegal) && unchanged(this)
      ensures m.DeGrafica? ==>
        && r == Pass
        && colores == (if m.duena == this && m.elemento in old(elementos)
                       then old(colores)[m.elemento := c] else old(colores))
        && elementos == old(elementos) && vecinos == old(vecinos) && aristas == old(aristas)
    {
      if m.Nula? {
        return Fail(ApuntadorNulo);
      }
      if m.Ajena? {
        return Fail(ArgumentoIlegal);
      }
      if m.duena == this && m.elemento in colores {
        colores := colores[m.elemento := c];
      }
      return Pass;
    }

    /** `paraCadaVertice(accion)`: the vertices the action is applied to, in
        order of insertion.  A null action throws NullPointerException at the
        first vertex, having been applied to none; on an empty graph it is
        never called. */
    method ParaCadaVertice(accionNula: bool) returns (r: Outcome, t: seq<int>)
      ensures accionNula && elementos != [] ==> r == Fail(ApuntadorNulo) && t == []
      ensures !accionNula || elementos == [] ==> r == Pass && t == elementos
    {
      t := [];
      var i := 0;
      while i < |elementos|
        invariant 0 <= i <= |elementos|
        invariant t == elementos[..i]
        invariant accionNula ==> i == 0
      {
        if accionNula {
          return Fail(ApuntadorNulo), t;
        }
        assert elementos[..i + 1] == elementos[..i] + [elementos[i]];
        t := t + [elementos[i]];
        i := i + 1;
      }
      assert elementos[..i] == elementos;
      r := Pass;
    }

    /** `pintaVertices(color)`. */
    method PintaVertices(c: Color)
      requires Valido()
      modifies this
      ensures Valido()
      ensures elementos == old(elementos) && vecinos == old(vecinos) && aristas == old(aristas)
      ensures colores == map x | x in elementos :: c
    {
      var i := 0;
      while i < |elementos|
        invariant 0 <= i <= |elementos|
        invariant Valido()
        invariant elementos == old(elementos) && vecinos == old(vecinos) && aristas == old(aristas)
        invariant forall j :: 0 <= j < i ==> elementos[j] in colores && colores[elementos[j]] == c
      {
        assert elementos[i] in elementos;
        colores := colores[elementos[i] := c];
        i := i + 1;
      }
      ghost var m := map x | x in elementos :: c;
      forall x | x in elementos ensures x in colores && colores[x] == m[x] {
        var j :| 0 <= j < |elementos| && elementos[j] == x;
      }
      forall x | x in colores ensures x in m {
        assert x in elementos;
      }
      assert m.Keys == colores.Keys;
    }

    /** The state of a traversal of the graph. */
    ghost predicate EnRecorrido(t: seq<int>, w: seq<int>, caminos: map<int, seq<int>>, v: int)
      reads this
    {
      Recorriendo(vecinos, colores, t, w, caminos, v)
    }

    /** The inner loop of `recorrido`: each red neighbour of `aux` is
        painted black and put to wait. */
    method Explora(aux: int, w0: seq<int>, ghost t: seq<int>, ghost c0: map<int, seq<int>>, ghost v: int)
      returns (w: seq<int>, ghost caminos: map<int, seq<int>>)
      requires Valido() && EnRecorrido(t, w0, c0, v) && aux in t
      modifies this
      ensures EnRecorrido(t, w, caminos, v)
      ensures elementos == old(elementos) && vecinos == old(vecinos) && aristas == old(aristas)
      ensures colores.Keys == old(colores).Keys
      ensures forall x :: x in w0 ==> x in w
      ensures forall z :: z in vecinos[aux] ==> z in t || z in w
    {
      w, caminos := w0, c0;
      assert aux in vecinos;
      var ns := vecinos[aux];
      ghost var claves := colores.Keys;
      assert forall z :: z in ns ==> z in vecinos && z in claves;
      var i := 0;
      while i < |ns|
        invariant 0 <= i <= |ns|
        invariant EnRecorrido(t, w, caminos, v)
        invariant elementos == old(elementos) && vecinos == old(vecinos) && aristas == old(aristas)
        invariant colores.Keys == claves
        invariant forall x :: x in w0 ==> x in w
        invariant forall k :: 0 <= k < i ==> ns[k] in t || ns[k] in w
      {
        var z := ns[i];
        assert z in ns;
        if colores[z] == Rojo {
          Marca(vecinos, colores, t, w, caminos, v, aux, z);
          colores := colores[z := Negro];
          w := w + [z];
          caminos := caminos[z := caminos[aux] + [z]];
        }
        i := i + 1;
      }
    }

    /** Every neighbour of a visited vertex has been visited or is
        waiting. */
    ghost predicate Cerrado(t: seq<int>, w: seq<int>)
      reads this
    {
      forall x, z :: x in t && x in vecinos && z in vecinos[x] ==> z in t || z in w
    }

    /** One round of the loop of `recorrido`: the next vertex leaves the
        queue (`cola`) or the stack, is visited, and its red neighbours
        are put to wait. */
    method Paso(t0: seq<int>, w0: seq<int>, ghost c0: map<int, seq<int>>, ghost v: int, cola: bool)
      returns (t: seq<int>, w: seq<int>, ghost caminos: map<int, seq<int>>)
      requires Valido() && EnRecorrido(t0, w0, c0, v) && Cerrado(t0, w0) && w0 != []
      requires (t0 == [] ==> w0 == [v]) && (t0 != [] ==> t0[0] == v)
      modifies this
      ensures EnRecorrido(t, w, caminos, v) && Cerrado(t, w)
      ensures t != [] && t[0] == v
      ensures elementos == old(elementos) && vecinos == old(vecinos) && aristas == old(aristas)
      ensures colores.Keys == old(colores).Keys
      ensures t == t0 + [t[|t| - 1]]
    {
      var aux, resto;
      if cola {
        aux, resto := w0[0], w0[1..];
      } else {
        aux, resto := w0[|w0| - 1], w0[..|w0| - 1];
      }
      Saca(vecinos, colores, t0, w0, c0, v, aux, resto);
      t := t0 + [aux];
      assert t[0] == v;
      w, caminos := Explora(aux, resto, t, c0, v);
      forall x, z | x in t && x in vecinos && z in vecinos[x] ensures z in t || z in w {
        if x != aux {
          assert x in t0;
        }
      }
    }

    /** `recorrido(v, accion, implementacion)`: the vertices visited, in
        order, from `v`; `cola` chooses a queue, otherwise a stack. Without
        an action nothing happens. */
    method Recorrido(v: int, hayAccion: bool, cola: bool) returns (t: seq<int>)
      requires Valido() && v in elementos
      modifies this
      ensures Valido()
      ensures elementos == old(elementos) && vecinos == old(vecinos) && aristas == old(aristas)
      ensures !hayAccion ==> t == [] && colores == old(colores)
      ensures hayAccion ==>
        && RecorridoDe(vecinos, v, t)
        && colores == map x | x in elementos :: if x in t then Negro else Rojo
    {
      if !hayAccion {
        return [];
      }
      PintaVertices(Rojo);
      InicioRecorrido(elementos, vecinos, v);
      colores := colores[v := Negro];
      var w := [v];
      t := [];
      ghost var caminos: map<int, seq<int>> := map[v := [v]];
      ghost var xs0, g0, n0, claves := elementos, vecinos, aristas, colores.Keys;
      while w != []
        invariant EnRecorrido(t, w, caminos, v)
        invariant elementos == xs0 && vecinos == g0 && aristas == n0 && colores.Keys == claves
        invariant Valido()
        invariant Cerrado(t, w)
        invariant t == [] ==> w == [v]
        invariant t != [] ==> t[0] == v
        invariant |t| <= |elementos|
        decreases |elementos| - |t|
      {
        t, w, caminos := Paso(t, w, caminos, v, cola);
        forall x | x in t ensures x in elementos {
          assert CaminoDe(vecinos, caminos[x], v, x);
        }
        Acotada(t, elementos);
      }
      FinRecorrido(elementos, vecinos, colores, t, caminos, v);
    }

    /** `bfs(elemento, accion)` and `dfs(elemento, accion)`: the order of
        the visit; afterwards every vertex is colourless. */
    method Bfs(e: int, hayAccion: bool) returns (r: Result<seq<int>>)
      requires Valido()
      modifies this
      ensures Valido()
      ensures elementos == old(elementos) && vecinos == old(vecinos) && aristas == old(aristas)
      ensures e !in elementos ==> r == Err(ElementoInexistente) && colores == old(colores)
      ensures e in elementos ==> r.Ok? && colores == map x | x in elementos :: Ninguno
      ensures e in elementos && hayAccion ==> RecorridoDe(vecinos, e, r.value)
      ensures e in elementos && !hayAccion ==> r.value == []
    {
      r := Busqueda(e, hayAccion, true);
    }

    method Dfs(e: int, hayAccion: bool) returns (r: Result<seq<int>>)
      requires Valido()
      modifies this
      ensures Valido()
      ensures elementos == old(elementos) && vecinos == old(vecinos) && aristas == old(aristas)
      ensures e !in elementos ==> r == Err(ElementoInexistente) && colores == old(colores)
      ensures e in elementos ==> r.Ok? && colores == map x | x in elementos :: Ninguno
      ensures e in elementos && hayAccion ==> RecorridoDe(vecinos, e, r.value)
      ensures e in elementos && !hayAccion ==> r.value == []
    {
      r := Busqueda(e, hayAccion, false);
    }

    /** The body shared by `bfs` and `dfs`. */
    method Busqueda(e: int, hayAccion: bool, cola: bool) returns (r: Result<seq<int>>)
      requires Valido()
      modifies this
      ensures Valido()
      ensures elementos == old(elementos) && vecinos == old(vecinos) && aristas == old(aristas)
      ensures e !in elementos ==> r == Err(ElementoInexistente) && colores == old(colores)
      ensures e in elementos ==> r.Ok? && colores == map x | x in elementos :: Ninguno
      ensures e in elementos && hayAccion ==> RecorridoDe(vecinos, e, r.value)
      ensures e in elementos && !hayAccion ==> r.value == []
    {
      var buscado := BuscaVertice(e);
      if buscado.None? {
        return Err(ElementoInexistente);
      }
      var t := Recorrido(e, hayAccion, cola);
      PintaVertices(Ninguno);
      return Ok(t);
    }

    /** `esConexa()`: a depth-first traversal from the first vertex reaches
        every vertex; the unreached ones stay red. */
    method EsConexa() returns (b: bool)
      requires Valido()
      modifies this
      ensures Valido()
      ensures elementos == old(elementos) && vecinos == old(vecinos) && aristas == old(aristas)
      ensures b <== elementos != [] && forall y :: y in elementos ==> Alcanzable(vecinos, elementos[0], y)
      ensures b ==> elementos != [] && forall y :: y in elementos ==> Alcanzable(vecinos, elementos[0], y)
      ensures elementos == [] ==> colores == old(colores)
      ensures elementos != [] ==>
        colores == map x | x in elementos :: if Alcanzable(vecinos, elementos[0], x) then Negro else Rojo
    {
      if elementos == [] {
        return false;
      }
      b := true;
      PintaVertices(Rojo);
      var t := Recorrido(elementos[0], true, false);
      assert forall y :: y in elementos ==> (colores[y] != Rojo <==> Alcanzable(vecinos, elementos[0], y));
      var i := 0;
      while i < |elementos|
        invariant 0 <= i <= |elementos|
        invariant b <==> forall j :: 0 <= j < i ==> colores[elementos[j]] != Rojo
      {
        if colores[elementos[i]] == Rojo {
          b := false;
        }
        i := i + 1;
      }
      if !b {
        var j :| 0 <= j < |elementos| && colores[elementos[j]] == Rojo;
        assert !Alcanzable(vecinos, elementos[0], elementos[j]);
      }
    }

    /** `limpia()`. */
    method Limpia()
      modifies this
      ensures Valido() && elementos == [] && vecinos == map[] && colores == map[] && aristas == 0
    {
      elementos, vecinos, colores, aristas := [], map[], map[], 0;
    }
  }

  // ---------------------------------------------------------------------
  // Helpers of the methods above

  lemma SinRepetidosSinElemento(s: seq<int>, x: int)
    requires SinRepetidos(s)
    ensures SinRepetidos(SinElemento(s, x))
    ensures x !in SinElemento(s, x)
    ensures forall z :: z != x ==> (z in SinElemento(s, x) <==> z in s)
  {
    if x in s {
      SinRepetidosSinPosicion(s, Posicion(s, x) as nat);
      PosicionUnicaMultiset(s, x);
    }
    var r := SinElemento(s, x);
    SinElementoMultiset(s, x);
    forall z | z != x ensures z in r <==> z in s {
      assert z in r <==> multiset(r)[z] > 0;
      assert z in s <==> multiset(s)[z] > 0;
    }
  }

  lemma PosicionUnicaMultiset(s: seq<int>, x: int)
    requires SinRepetidos(s) && x in s
    ensures multiset(s)[x] == 1
  {
    var k := Posicion(s, x) as nat;
    assert s == s[..k] + [x] + s[k + 1..];
    var d := s[k + 1..];
    forall i | 0 <= i < |d| ensures d[i] != x {
      assert d[i] == s[k + 1 + i];
    }
    assert multiset(s) == multiset(s[..k]) + multiset{x} + multiset(s[k + 1..]);
  }

  /** The state of a traversal once the start is painted black. */
  lemma InicioRecorrido(xs: seq<int>, g: map<int, seq<int>>, v: int)
    requires v in g
    ensures Recorriendo(g, (map x | x in xs :: Rojo)[v := Negro], [], [v], map[v := [v]], v)
  {
    assert CaminoDe(g, [v], v, v);
  }

  /** Once nothing waits, the visit holds exactly the reachable vertices,
      and they are the black ones. */
  lemma FinRecorrido(xs: seq<int>, g: map<int, seq<int>>, c: map<int, Color>, t: seq<int>,
                     caminos: map<int, seq<int>>, v: int)
    requires Recorriendo(g, c, t, [], caminos, v)
    requires forall x, z :: x in t && x in g && z in g[x] ==> z in t || z in []
    requires t != [] && t[0] == v
    requires forall x :: x in c <==> x in xs
    requires forall x :: x in g <==> x in xs
    ensures RecorridoDe(g, v, t)
    ensures c == map x | x in xs :: if x in t then Negro else Rojo
  {
    forall y | y in g && Alcanzable(g, v, y) ensures y in t {
      var p :| CaminoDe(g, p, v, y);
      CaminoCerrado(g, p, t);
    }
    forall y | y in t ensures y in g && Alcanzable(g, v, y) {
      assert CaminoDe(g, caminos[y], v, y);
    }
    var m := map x | x in xs :: if x in t then Negro else Rojo;
    forall x | x in xs ensures x in c && c[x] == m[x] {
    }
    forall x | x in c ensures x in m {
      assert x in xs;
    }
    assert m.Keys == c.Keys;
  }

  /** A sequence without repetitions drawn from `xs` is no longer than
      `xs`. */
  lemma {:induction false} Acotada(t: seq<int>, xs: seq<int>)
    requires SinRepetidos(t) && forall x :: x in t ==> x in xs
    ensures |t| <= |xs|
  {
    if t != [] {
      var u, z := t[..|t| - 1], t[|t| - 1];
      SinRepetidosUltimo(t);
      SinElementoMultiset(xs, z);
      forall x | x in u ensures x in SinElemento(xs, z) {
        assert x in t && x != z;
        assert multiset(xs)[x] > 0;
      }
      Acotada(u, SinElemento(xs, z));
    }
  }

  /** Taking the next vertex out of the queue or stack to visit it. */
  lemma Saca(g: map<int, seq<int>>, c: map<int, Color>, t: seq<int>, w: seq<int>,
             caminos: map<int, seq<int>>, v: int, aux: int, r: seq<int>)
    requires Recorriendo(g, c, t, w, caminos, v)
    requires w == [aux] + r || w == r + [aux]
    ensures Recorriendo(g, c, t + [aux], r, caminos, v)
    ensures forall x :: x in w <==> x == aux || x in r
  {
    SacaDe(t, w, aux, r);
  }

  /** Painting a red neighbour of a visited vertex black and putting it to
      wait. */
  lemma Marca(g: map<int, seq<int>>, c: map<int, Color>, t: seq<int>, w: seq<int>,
              caminos: map<int, seq<int>>, v: int, aux: int, z: int)
    requires Recorriendo(g, c, t, w, caminos, v)
    requires aux in t && z in g && z in g[aux] && z in c && c[z] == Rojo
    ensures Recorriendo(g, c[z := Negro], t, w + [z], caminos[z := caminos[aux] + [z]], v)
  {
    assert z !in t && z !in w;
    CaminoExtendido(g, caminos[aux], v, aux, z);
    SinRepetidosInsertado(w, |w|, z);
    assert w[..|w|] + [z] + w[|w|..] == w + [z];
  }

  /** Taking the next vertex out of the queue or stack keeps `t`, `w` and
      the vertex apart. */
  lemma SacaDe(t: seq<int>, w: seq<int>, aux: int, r: seq<int>)
    requires SinRepetidos(t) && SinRepetidos(w) && (forall x :: x in t ==> x !in w)
    requires w == [aux] + r || w == r + [aux]
    ensures SinRepetidos(t + [aux]) && SinRepetidos(r)
    ensures forall x :: x in t + [aux] ==> x !in r
    ensures forall x :: x in w <==> x == aux || x in r
  {
    var u := t + [aux];
    assert aux in w;
    forall i, j | 0 <= i < j < |u| ensures u[i] != u[j] {
      if j == |t| {
        assert u[i] == t[i];
      }
    }
    if w == [aux] + r {
      assert aux == w[0];
      forall i | 0 <= i < |r| ensures r[i] == w[i + 1] && r[i] != aux {
      }
    } else {
      assert aux == w[|w| - 1];
      forall i | 0 <= i < |r| ensures r[i] == w[i] && r[i] != aux {
      }
    }
  }

  /** After the loop of `elimina`, the adjacency is `VecinosSin`: only the
      neighbours of `e` mention it. */
  lemma EliminaVecinos(g0: map<int, seq<int>>, e: int, g2: map<int, seq<int>>)
    requires e in g0
    requires forall y :: y in g0 && e in g0[y] ==> y in g0[e]
    requires forall y :: y in g2 <==> y in g0
    requires forall y :: y in g0 ==> g2[y] == if y in g0[e] then SinElemento(g0[y], e) else g0[y]
    ensures g2 - {e} == VecinosSin(g0, e)
  {
    var h, m := g2 - {e}, VecinosSin(g0, e);
    assert forall y :: y in m ==> y in h && h[y] == m[y] by {
      forall y | y in m ensures y in h && h[y] == m[y] {
        if y !in g0[e] {
          assert e !in g0[y];
        }
      }
    }
    forall y | y in h ensures y in m {
    }
    assert h.Keys == m.Keys;
  }

  /** `agrega` keeps the invariant. */
  lemma AgregaConserva(xs: seq<int>, g: map<int, seq<int>>, n: int, x: int)
    requires Grafo(xs, g, n) && x !in xs
    ensures Grafo(xs + [x], g[x := []], n)
  {
    SinRepetidosInsertado(xs, |xs|, x);
    assert xs[..|xs|] + [x] + xs[|xs|..] == xs + [x];
    SumaAgregado(g[x := []], xs, x);
    SumaActualiza(g, xs, x, []);
    SimpleAgregado(g, x);
  }

  /** A new isolated vertex keeps the graph simple. */
  lemma SimpleAgregado(g: map<int, seq<int>>, x: int)
    requires Simple(g) && x !in g
    ensures Simple(g[x := []])
  {
    var h := g[x := []];
    forall y | y in h
      ensures SinRepetidos(h[y]) && y !in h[y]
      ensures forall z :: z in h[y] ==> z in h && y in h[z]
    {
      if y != x {
        assert x !in g[y];
      }
    }
  }

  /** `conecta` keeps the invariant, with one edge more. */
  lemma ConectaConserva(xs: seq<int>, g: map<int, seq<int>>, n: int, a: int, b: int)
    requires Grafo(xs, g, n) && a in xs && b in xs && a != b && b !in g[a]
    ensures Grafo(xs, Conectada(g, a, b), n + 1)
  {
    SumaActualiza(g, xs, a, g[a] + [b]);
    SumaActualiza(g[a := g[a] + [b]], xs, b, g[b] + [a]);
    SimpleConectada(g, a, b);
  }

  /** `desconecta` keeps the invariant, with one edge less. */
  lemma DesconectaConserva(xs: seq<int>, g: map<int, seq<int>>, n: int, a: int, b: int)
    requires Grafo(xs, g, n) && a in xs && b in xs && b in g[a]
    ensures Grafo(xs, Desconectada(g, a, b), n - 1)
  {
    assert a != b && a in g[b];
    SumaActualiza(g, xs, a, SinElemento(g[a], b));
    SumaActualiza(g[a := SinElemento(g[a], b)], xs, b, SinElemento(g[b], a));
    SimpleDesconectada(g, a, b);
  }

  /** After `k` rounds of the loop of `elimina` over the neighbours `ns`
      of `e`, the first `k` of them have lost `e`, and the degree sum of
      the vertices `xs` is `k` less. */
  ghost predicate Desligados(g0: map<int, seq<int>>, e: int, ns: seq<int>, k: nat,
                             g: map<int, seq<int>>, xs: seq<int>)
    requires k <= |ns|
  {
    && (forall y :: y in g <==> y in g0)
    && (forall y :: y in g0 ==> g[y] == if y in ns[..k] then SinElemento(g0[y], e) else g0[y])
    && SumaGrados(g, xs) == SumaGrados(g0, xs) - k
  }

  /** One round of the loop of `elimina`. */
  lemma DesligaPaso(g0: map<int, seq<int>>, e: int, ns: seq<int>, xs: seq<int>, k: nat, g: map<int, seq<int>>)
    requires k < |ns| && SinRepetidos(ns) && SinRepetidos(xs)
    requires Desligados(g0, e, ns, k, g, xs)
    requires ns[k] in xs && ns[k] in g0 && ns[k] in g && e in g0[ns[k]]
    ensures Desligados(g0, e, ns, k + 1, g[ns[k] := SinElemento(g[ns[k]], e)], xs)
  {
    var v := ns[k];
    assert v !in ns[..k];
    SumaActualiza(g, xs, v, SinElemento(g[v], e));
    assert ns[..k + 1] == ns[..k] + [v];
  }

  /** `elimina` keeps the invariant, with the edges of `e` gone; `g2` is
      the adjacency its loop leaves, before `e` itself is dropped. */
  lemma EliminaConserva(xs: seq<int>, g: map<int, seq<int>>, n: int, e: int, g2: map<int, seq<int>>)
    requires Grafo(xs, g, n) && e in xs
    requires Desligados(g, e, g[e], |g[e]|, g2, SinElemento(xs, e))
    ensures g2 - {e} == VecinosSin(g, e)
    ensures Grafo(SinElemento(xs, e), VecinosSin(g, e), n - |g[e]|)
  {
    assert g[e][..|g[e]|] == g[e];
    EliminaAdyacencia(g, e, g2);
    EliminaSuma(xs, g, n, e, g2);
    EliminaClaves(xs, g, e);
  }

  lemma EliminaClaves(xs: seq<int>, g: map<int, seq<int>>, e: int)
    requires SinRepetidos(xs) && (forall x :: x in g <==> x in xs)
    ensures SinRepetidos(SinElemento(xs, e))
    ensures forall x :: x in VecinosSin(g, e) <==> x in SinElemento(xs, e)
  {
    SinRepetidosSinElemento(xs, e);
  }

  lemma EliminaAdyacencia(g: map<int, seq<int>>, e: int, g2: map<int, seq<int>>)
    requires Simple(g) && e in g
    requires forall y :: y in g2 <==> y in g
    requires forall y :: y in g ==> g2[y] == if y in g[e] then SinElemento(g[y], e) else g[y]
    ensures g2 - {e} == VecinosSin(g, e)
    ensures Simple(VecinosSin(g, e))
  {
    assert forall y :: y in g && e in g[y] ==> y in g[e];
    EliminaVecinos(g, e, g2);
    SimpleVecinosSin(g, e);
  }

  lemma EliminaSuma(xs: seq<int>, g: map<int, seq<int>>, n: int, e: int, g2: map<int, seq<int>>)
    requires SinRepetidos(xs) && e in xs && e in g && 2 * n == SumaGrados(g, xs)
    requires g2 - {e} == VecinosSin(g, e)
    requires SumaGrados(g2, SinElemento(xs, e)) == SumaGrados(g, SinElemento(xs, e)) - |g[e]|
    ensures 2 * (n - |g[e]|) == SumaGrados(VecinosSin(g, e), SinElemento(xs, e))
  {
    SinRepetidosSinElemento(xs, e);
    SumaSinPosicion(g, xs, Posicion(xs, e) as nat);
    SumaIgual(g2, VecinosSin(g, e), SinElemento(xs, e));
  }

  /** `conecta` keeps the graph simple. */
  lemma SimpleConectada(g: map<int, seq<int>>, a: int, b: int)
    requires Simple(g) && a in g && b in g && a != b && b !in g[a]
    ensures Simple(Conectada(g, a, b))
  {
    assert a !in g[b];
    SinRepetidosInsertado(g[a], |g[a]|, b);
    SinRepetidosInsertado(g[b], |g[b]|, a);
    assert g[a][..|g[a]|] + [b] + g[a][|g[a]|..] == g[a] + [b];
    assert g[b][..|g[b]|] + [a] + g[b][|g[b]|..] == g[b] + [a];
  }

  /** `desconecta` keeps the graph simple. */
  lemma SimpleDesconectada(g: map<int, seq<int>>, a: int, b: int)
    requires Simple(g) && a in g && b in g
    ensures Simple(Desconectada(g, a, b))
  {
    SinRepetidosSinElemento(g[a], b);
    SinRepetidosSinElemento(g[b], a);
  }

  /** `elimina` keeps the graph simple. */
  lemma SimpleVecinosSin(g: map<int, seq<int>>, e: int)
    requires Simple(g)
    ensures Simple(VecinosSin(g, e))
  {
    var h := VecinosSin(g, e);
    forall y | y in h
      ensures SinRepetidos(h[y]) && y !in h[y]
      ensures forall z :: z in h[y] ==> z in h && y in h[z]
    {
      SinRepetidosSinElemento(g[y], e);
      forall z | z in h[y] ensures z in h && y in h[z] {
        SinRepetidosSinElemento(g[z], e);
      }
    }
  }
}
