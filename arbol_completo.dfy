/** Complete binary trees: every level is full except perhaps the last,
    which fills from the left.  The shape of a complete tree is fixed by
    its size, so the tree is kept as the sequence of its elements in BFS
    order: the vertex at position k has its children at positions 2k+1 and
    2k+2 when those exist.  The queue of the source's breadth-first loops
    is a sequence of such positions. */
module ArbolBinarioCompleto {
  import opened Comun
  import opened ArbolBinario

  // ---------------------------------------------------------------------
  // Positions

  /** The positions a to b - 1, in order. */
  function Rango(a: nat, b: nat): seq<nat>
    requires a <= b
  {
    seq(b - a, i requires 0 <= i < b - a => a + i)
  }

  /** The queue of a breadth-first walk over `n` vertices once the first
      `j` have been taken out: the positions from j up to the last child
      of vertex j - 1. */
  function Cola(j: nat, n: nat): seq<nat>
    requires j <= n
  {
    Rango(j, if 2 * j + 1 < n then 2 * j + 1 else n)
  }

  /** Taking position j out of the queue and putting its existing children
      in gives the queue for j + 1. */
  lemma ColaAvanza(j: nat, n: nat)
    requires j < n
    ensures |Cola(j, n)| > 0 && Cola(j, n)[0] == j
    ensures Cola(j, n)[1..] + (if 2 * j + 1 < n then [2 * j + 1] else [])
            + (if 2 * j + 2 < n then [2 * j + 2] else []) == Cola(j + 1, n)
  {
  }

  /** The position reached from position k along a path, left = false. */
  function IndiceDesde(k: nat, p: Ruta): nat
    decreases |p|
  {
    if p == [] then k else IndiceDesde(2 * k + (if p[0] then 2 else 1), p[1..])
  }

  lemma {:induction false} IndiceCrece(k: nat, p: Ruta)
    decreases |p|
    ensures IndiceDesde(k, p) >= k
  {
    if p != [] {
      IndiceCrece(2 * k + (if p[0] then 2 else 1), p[1..]);
    }
  }

  /** The subtree hung at position k of a BFS sequence. */
  ghost function ArbolDe(s: seq<int>, k: nat): Vertice<()>
    decreases |s| - k
  {
    if k >= |s| then Nulo
    else Vertice(ArbolDe(s, 2 * k + 1), s[k], (), ArbolDe(s, 2 * k + 2))
  }

  /** The shape is complete: a path leads to a vertex exactly when its
      position is one of the first |s|, and the vertex there holds the
      element at that position. */
  lemma {:induction false} PosicionesCompletas(s: seq<int>, k: nat, p: Ruta)
    decreases |p|
    ensures EsVertice(ArbolDe(s, k), p) <==> IndiceDesde(k, p) < |s|
    ensures IndiceDesde(k, p) < |s| ==> SubarbolEn(ArbolDe(s, k), p) == ArbolDe(s, IndiceDesde(k, p))
  {
    if p != [] {
      var k2 := 2 * k + (if p[0] then 2 else 1);
      if k >= |s| {
        IndiceCrece(k2, p[1..]);
        NuloSinVertices<()>(p);
      } else {
        assert Hijo(ArbolDe(s, k), p[0]) == ArbolDe(s, k2);
        assert SubarbolEn(ArbolDe(s, k), p) == SubarbolEn(ArbolDe(s, k2), p[1..]);
        PosicionesCompletas(s, k2, p[1..]);
      }
    }
  }

  /** Positions number the vertices level by level: below position k, the
      vertices at depth d take positions (k+1)2^d - 1 to (k+2)2^d - 2;
      from the root, 2^d - 1 to 2^(d+1) - 2. */
  lemma {:induction false} PosicionesPorNivel(k: nat, p: Ruta)
    decreases |p|
    ensures (k + 1) * Potencia2(|p|) - 1 <= IndiceDesde(k, p) <= (k + 2) * Potencia2(|p|) - 2
  {
    if p != [] {
      var b := if p[0] then 1 else 0;
      var k2 := 2 * k + 1 + b;
      var d := |p| - 1;
      var P := Potencia2(d);
      PosicionesPorNivel(k2, p[1..]);
      assert IndiceDesde(k, p) == IndiceDesde(k2, p[1..]);
      assert Potencia2(|p|) == 2 * P;
      MultiplicaMonotona(2 * k + 2, k2 + 1, P);
      MultiplicaMonotona(k2 + 2, 2 * k + 4, P);
      MultiplicaDoble(k + 1, P);
      MultiplicaDoble(k + 2, P);
    }
  }

  lemma MultiplicaMonotona(a: nat, b: nat, c: nat)
    requires a <= b
    ensures a * c <= b * c
  {
  }

  lemma MultiplicaDoble(a: nat, c: nat)
    ensures (2 * a) * c == a * (2 * c)
  {
  }

  /** Within a level, the right child comes right after the left one. */
  lemma {:induction false} DerechoTrasIzquierdo(k: nat, p: Ruta)
    decreases |p|
    ensures IndiceDesde(k, p + [true]) == IndiceDesde(k, p + [false]) + 1
  {
    if p == [] {
      assert ([] + [true])[1..] == [] && ([] + [false])[1..] == [];
    } else {
      var k2 := 2 * k + (if p[0] then 2 else 1);
      assert (p + [true])[1..] == p[1..] + [true] && (p + [false])[1..] == p[1..] + [false];
      DerechoTrasIzquierdo(k2, p[1..]);
    }
  }

  // ---------------------------------------------------------------------
  // Search

  /** The pre-order search of the binary tree from position k: the vertex,
      then its left subtree, then its right subtree. */
  function BuscaIndice(s: seq<int>, x: int, k: nat): (r: Option<nat>)
    decreases |s| - k
    ensures r.Some? ==> k <= r.value < |s| && s[r.value] == x
  {
    if k >= |s| then None
    else if s[k] == x then Some(k)
    else match BuscaIndice(s, x, 2 * k + 1)
      case Some(i) => Some(i)
      case None => BuscaIndice(s, x, 2 * k + 2)
  }

  /** It is the binary tree's `busca` on the tree the sequence lays out. */
  lemma {:induction false} BuscaIndiceEsBusca(s: seq<int>, x: int, k: nat)
    decreases |s| - k
    ensures BuscaEn(ArbolDe(s, k), x).None? <==> BuscaIndice(s, x, k).None?
    ensures BuscaEn(ArbolDe(s, k), x).Some? ==>
              BuscaIndice(s, x, k) == Some(IndiceDesde(k, BuscaEn(ArbolDe(s, k), x).value))
  {
    if k < |s| && s[k] != x {
      var j1, j2 := 2 * k + 1, 2 * k + 2;
      BuscaIndiceEsBusca(s, x, j1);
      BuscaIndiceEsBusca(s, x, j2);
      var I, D := ArbolDe(s, j1), ArbolDe(s, j2);
      var ri, rd, bi, bd := BuscaEn(I, x), BuscaEn(D, x), BuscaIndice(s, x, j1), BuscaIndice(s, x, j2);
      assert ArbolDe(s, k) == Vertice(I, s[k], (), D);
      BuscaEnHijos(I, s[k], D, x);
      BuscaIndiceHijos(s, x, k);
      CombinaBusquedas(k, ri, rd, bi, bd, BuscaEn(ArbolDe(s, k), x), BuscaIndice(s, x, k));
    }
  }

  /** The step of the induction above, on the results alone. */
  lemma CombinaBusquedas(k: nat, ri: Option<Ruta>, rd: Option<Ruta>, bi: Option<nat>, bd: Option<nat>,
                         r: Option<Ruta>, b: Option<nat>)
    requires r == if ri.Some? then Some([false] + ri.value) else if rd.Some? then Some([true] + rd.value) else None
    requires b == if bi.Some? then bi else bd
    requires (ri.None? <==> bi.None?) && (ri.Some? ==> bi == Some(IndiceDesde(2 * k + 1, ri.value)))
    requires (rd.None? <==> bd.None?) && (rd.Some? ==> bd == Some(IndiceDesde(2 * k + 2, rd.value)))
    ensures r.None? <==> b.None?
    ensures r.Some? ==> b == Some(IndiceDesde(k, r.value))
  {
    if ri.Some? {
      IndiceDesdeHijo(k, false, ri.value);
    } else if rd.Some? {
      IndiceDesdeHijo(k, true, rd.value);
    }
  }

  /** `busca` at a vertex that does not hold the element: the left subtree
      first, then the right one. */
  lemma BuscaEnHijos(i: Vertice<()>, e: int, d: Vertice<()>, x: int)
    requires e != x
    ensures BuscaEn(Vertice(i, e, (), d), x) ==
              if BuscaEn(i, x).Some? then Some([false] + BuscaEn(i, x).value)
              else if BuscaEn(d, x).Some? then Some([true] + BuscaEn(d, x).value)
              else None
  {
  }

  /** The search at a position that does not hold the element. */
  lemma BuscaIndiceHijos(s: seq<int>, x: int, k: nat)
    requires k < |s| && s[k] != x
    ensures BuscaIndice(s, x, k) ==
              if BuscaIndice(s, x, 2 * k + 1).Some? then BuscaIndice(s, x, 2 * k + 1)
              else BuscaIndice(s, x, 2 * k + 2)
  {
  }

  /** The position of a path that starts with a step down. */
  lemma IndiceDesdeHijo(k: nat, b: bool, q: Ruta)
    ensures IndiceDesde(k, [b] + q) == IndiceDesde(2 * k + (if b then 2 else 1), q)
  {
    assert ([b] + q)[0] == b && ([b] + q)[1..] == q;
  }

  /** Every position is below position 0. */
  ghost predicate Bajo(k: nat, i: nat)
    decreases i
  {
    i == k || (i > k && i > 0 && Bajo(k, (i - 1) / 2))
  }

  lemma {:induction false} TodoBajoRaiz(i: nat)
    decreases i
    ensures Bajo(0, i)
  {
    if i > 0 {
      TodoBajoRaiz((i - 1) / 2);
    }
  }

  lemma {:induction false} BuscaFallaAbajo(s: seq<int>, x: int, k: nat, i: nat)
    requires BuscaIndice(s, x, k).None? && Bajo(k, i)
    decreases i
    ensures BuscaIndice(s, x, i).None?
  {
    if i != k {
      var q := (i - 1) / 2;
      BuscaFallaAbajo(s, x, k, q);
      assert i == 2 * q + 1 || i == 2 * q + 2;
    }
  }

  /** The search fails exactly when the element is absent. */
  lemma BuscaIndiceCompleta(s: seq<int>, x: int)
    ensures BuscaIndice(s, x, 0).None? <==> x !in s
  {
    if BuscaIndice(s, x, 0).None? {
      forall i | 0 <= i < |s| ensures s[i] != x {
        TodoBajoRaiz(i);
        BuscaFallaAbajo(s, x, 0, i);
      }
    }
  }

  /** Position k takes the last element, and the last position goes. */
  function Quita(s: seq<int>, k: nat): seq<int>
    requires k < |s|
  {
    s[k := s[|s| - 1]][..|s| - 1]
  }

  /** Removing leaves one copy fewer of the removed element. */
  lemma QuitaMultiset(s: seq<int>, k: nat)
    requires k < |s|
    ensures |Quita(s, k)| == |s| - 1
    ensures multiset(Quita(s, k)) == multiset(s) - multiset{s[k]}
  {
    var n := |s|;
    var A, z := s[..k], s[n - 1];
    if k == n - 1 {
      assert Quita(s, k) == A;
      assert s == A + [z];
    } else {
      var B := s[k + 1..n - 1];
      assert Quita(s, k) == A + [z] + B;
      assert s == A + [s[k]] + B + [z];
      assert multiset(s) == multiset(A) + multiset{s[k]} + multiset(B) + multiset{z};
    }
  }

  /** Every other position keeps its element. */
  lemma QuitaConserva(s: seq<int>, k: nat, i: nat)
    requires k < |s| && i < |s| - 1 && i != k
    ensures Quita(s, k)[i] == s[i]
  {
  }

  // ---------------------------------------------------------------------
  // The tree

  class Completo {
    /** The elements in BFS order. */
    var vertices: seq<int>

    /** An empty tree. */
    constructor()
      ensures vertices == []
    {
      vertices := [];
    }

    /** The tree the sequence lays out. */
    ghost function Raiz(): Vertice<()>
      reads this
    {
      ArbolDe(vertices, 0)
    }

    /** `getElementos()`. */
    function Tamano(): (n: nat)
      reads this
      ensures n == |vertices|
    {
      |vertices|
    }

    /** `agrega(e)`: null throws IllegalArgumentException.  Otherwise the
        breadth-first loop takes vertices out of the queue until one has a
        free left or right slot, and hangs the new vertex there: it lands on
        the first free position, which keeps the tree complete. */
    method Agrega(e: Option<int>) returns (r: Outcome)
      modifies this
      ensures e.None? ==> r == Fail(ArgumentoIlegal) && vertices == old(vertices)
      ensures e.Some? ==> r == Pass && vertices == old(vertices) + [e.value]
    {
      if e.None? {
        return Fail(ArgumentoIlegal);
      }
      var x := e.value;
      var n := |vertices|;
      if n == 0 {
        vertices := [x];
        return Pass;
      }
      var c: seq<nat> := [0];
      ghost var j: nat := 0;
      while c != []
        invariant 2 * j < n && c == Rango(j, 2 * j + 1)
        invariant vertices == old(vertices) && n == |vertices|
        decreases n - j
      {
        var v := c[0];
        c := c[1..];
        if 2 * v + 1 >= n {
          // the left slot of v is the first free position
          assert 2 * v + 1 == n;
          vertices := vertices + [x];
          return Pass;
        }
        if 2 * v + 2 >= n {
          // the right slot of v is the first free position
          assert 2 * v + 2 == n;
          vertices := vertices + [x];
          return Pass;
        }
        c := c + [2 * v + 1, 2 * v + 2];
        j := j + 1;
      }
      assert false;
    }

    /** `elimina(e)`: null does nothing; an element the pre-order `busca`
        does not find throws ClassCastException (from `vertice(null)`).
        Otherwise, with one element the tree empties; with more, a
        breadth-first walk counts its way to the last vertex, whose element
        overwrites the found one, and the last vertex is detached from its
        parent. */
    method Elimina(e: Option<int>) returns (r: Outcome)
      modifies this
      ensures e.None? ==> r == Pass && vertices == old(vertices)
      ensures e.Some? ==>
        match BuscaIndice(old(vertices), e.value, 0)
        case None => r == Fail(ConversionInvalida) && vertices == old(vertices)
        case Some(k) => r == Pass && vertices == Quita(old(vertices), k)
    {
      if e.None? {
        return Pass;
      }
      var x := e.value;
      var b := BuscaIndice(vertices, x, 0);
      if b.None? {
        return Fail(ConversionInvalida);
      }
      var h := b.value;
      var n := |vertices|;
      var elementos := n - 1;
      if elementos == 0 {
        vertices := [];
        return Pass;
      }
      var i: nat := 0;
      var c: seq<nat> := [0];
      var aux: nat := 0;
      while c != []
        invariant i <= n && c == Cola(i, n)
        invariant aux < n && (i == n ==> aux == n - 1)
        invariant vertices == old(vertices)
        decreases n - i
      {
        ColaAvanza(i, n);
        var v := c[0];
        c := c[1..];
        i := i + 1;
        if i == elementos + 1 {
          aux := v;
        }
        if 2 * v + 1 < n {
          c := c + [2 * v + 1];
        }
        if 2 * v + 2 < n {
          c := c + [2 * v + 2];
        }
      }
      vertices := vertices[h := vertices[aux]];
      var padre := (aux - 1) / 2;
      if 2 * padre + 2 >= n {
        // the parent has no right child: the last vertex is its left one
        assert aux == 2 * padre + 1;
      } else {
        assert aux == 2 * padre + 2;
      }
      vertices := vertices[..aux];
      return Pass;
    }

    /** `bfs(accion)`: nothing on an empty tree or without an action;
        otherwise the action sees the vertices in BFS order (the elements it
        is shown are returned). */
    method Bfs(conAccion: bool) returns (visitados: seq<int>)
      ensures visitados == (if conAccion then vertices else [])
    {
      visitados := [];
      var n := |vertices|;
      if n == 0 || !conAccion {
        return;
      }
      var c: seq<nat> := [0];
      ghost var i: nat := 0;
      while c != []
        invariant i <= n && c == Cola(i, n)
        invariant visitados == vertices[..i]
        decreases n - i
      {
        ColaAvanza(i, n);
        var v := c[0];
        c := c[1..];
        visitados := visitados + [vertices[v]];
        if 2 * v + 1 < n {
          c := c + [2 * v + 1];
        }
        if 2 * v + 2 < n {
          c := c + [2 * v + 2];
        }
        i := i + 1;
      }
      assert vertices[..n] == vertices;
    }
  }

  /** The source's `Iterador`: a queue of vertices, seeded with the root. */
  class Iterador {
    /** The tree being walked. */
    const vertices: seq<int>
    var cola: seq<nat>
    /** How many vertices have been handed out. */
    ghost var dados: nat

    ghost predicate Valido()
      reads this
    {
      dados <= |vertices| && cola == Cola(dados, |vertices|)
    }

    /** The elements still to come. */
    ghost function Pendientes(): seq<int>
      reads this
      requires Valido()
    {
      vertices[dados..]
    }

    constructor(s: seq<int>)
      ensures Valido() && vertices == s && Pendientes() == s
    {
      vertices := s;
      cola := if |s| > 0 then [0] else [];
      dados := 0;
    }

    /** `hasNext()`. */
    function HayMas(): (b: bool)
      reads this
      requires Valido()
      ensures b <==> Pendientes() != []
    {
      cola != []
    }

    /** `next()`: NoSuchElementException when the queue is empty;
        otherwise the front vertex's children join the queue and its
        element is returned. */
    method Siguiente() returns (r: Result<int>)
      requires Valido()
      modifies this
      ensures Valido()
      ensures old(Pendientes()) == [] ==> r == Err(ElementoInexistente) && Pendientes() == []
      ensures old(Pendientes()) != [] ==> r == Ok(old(Pendientes())[0]) && Pendientes() == old(Pendientes())[1..]
      ensures old(Pendientes()) != [] ==> dados == old(dados) + 1 && r == Ok(vertices[old(dados)])
    {
      var n := |vertices|;
      if cola == [] {
        return Err(ElementoInexistente);
      }
      ColaAvanza(dados, n);
      var v := cola[0];
      if 2 * v + 1 < n {
        cola := cola + [2 * v + 1];
      }
      if 2 * v + 2 < n {
        cola := cola + [2 * v + 2];
      }
      cola := cola[1..];
      dados := dados + 1;
      return Ok(vertices[v]);
    }
  }

  lemma SiguientePrefijo(s: seq<int>, d: nat)
    requires d < |s|
    ensures s[..d + 1] == s[..d] + [s[d]]
  {
  }

  /** Iterating the whole tree yields its BFS sequence. */
  method RecorreConIterador(s: seq<int>) returns (t: seq<int>)
    ensures t == s
  {
    var it := new Iterador(s);
    t := [];
    while it.HayMas()
      invariant it.Valido() && it.vertices == s
      invariant t == s[..it.dados]
      decreases |s| - it.dados
    {
      ghost var d := it.dados;
      var r := it.Siguiente();
      SiguientePrefijo(s, d);
      t := t + [r.value];
    }
    assert s[..it.dados] == s;
  }
}
