/** Doubly linked lists of integers: a chain of nodes, each linked to the
    one before and the one after it, with references to the first node
    (`cabeza`), the last one (`rabo`) and a length counter.  The ghost
    sequence `nodos` lists the chain from head to tail and `contenido` the
    elements it holds; `Valido()` ties the links to them. */
module Lista {
  import opened Comun

  /** The first position of `x` in `s`, or -1 when `x` does not occur. */
  function Posicion(s: seq<int>, x: int): (k: int)
    ensures -1 <= k < |s|
    ensures k == -1 <==> x !in s
    ensures k >= 0 ==> s[k] == x && x !in s[..k]
  {
    if s == [] then -1
    else if s[0] == x then 0
    else
      var k := Posicion(s[1..], x);
      if k == -1 then -1
      else
        assert s[..k + 1] == [s[0]] + s[1..][..k];
        k + 1
  }

  /** A position holding `x` with no `x` before it is the first one. */
  lemma PosicionUnica(s: seq<int>, x: int, k: int)
    requires 0 <= k < |s| && s[k] == x && x !in s[..k]
    ensures Posicion(s, x) == k
  {
  }

  /** What `elimina(x)` leaves of the sequence: its first `x` taken out,
      when it has one. */
  function SinElemento(s: seq<int>, x: int): (r: seq<int>)
    ensures |r| == if x in s then |s| - 1 else |s|
  {
    if x in s then SinPosicion(s, Posicion(s, x)) else s
  }

  /** `elimina(x)` takes one copy of `x` out of the contents. */
  lemma SinElementoMultiset(s: seq<int>, x: int)
    ensures multiset(SinElemento(s, x)) == multiset(s) - multiset{x}
  {
    if x in s {
      SinPosicionMultiset(s, Posicion(s, x));
    } else {
      assert multiset(s)[x] == 0;
    }
  }

  /** Where `inserta(i, e)` puts the new element: at the front when `i` is
      not positive, at the end when it is at least the length. */
  function Acota(i: int, n: nat): (k: nat)
    ensures k <= n
    ensures 0 < i < n ==> k == i
    ensures i <= 0 ==> k == 0
    ensures i >= n ==> k == n
  {
    if i <= 0 then 0 else if i >= n then n else i
  }

  /** `s` with `x` inserted so that it lands at position `Acota(i, |s|)`. */
  function InsertaEn(s: seq<int>, i: int, x: int): (r: seq<int>)
    ensures |r| == |s| + 1
    ensures r[Acota(i, |s|)] == x
    ensures SinPosicion(r, Acota(i, |s|)) == s
  {
    var k := Acota(i, |s|);
    assert (s[..k] + [x] + s[k..])[..k] == s[..k];
    assert (s[..k] + [x] + s[k..])[k + 1..] == s[k..];
    s[..k] + [x] + s[k..]
  }

  /** `s` from back to front. */
  function Invertida(s: seq<int>): (r: seq<int>)
    ensures |r| == |s|
    ensures forall i :: 0 <= i < |s| ==> r[i] == s[|s| - 1 - i]
  {
    if s == [] then [] else Invertida(s[1..]) + [s[0]]
  }

  /** Reversing twice gives the sequence back. */
  lemma InvertidaInvolucion(s: seq<int>)
    ensures Invertida(Invertida(s)) == s
  {
  }

  /** The merge of `mezcla` from position i of `a` and position j of
      `b`: the smaller head goes first, the one of `a` on ties. */
  function MezclaDesde(a: seq<int>, b: seq<int>, i: nat, j: nat): seq<int>
    requires i <= |a| && j <= |b|
    decreases |a| - i + |b| - j
  {
    if i == |a| then b[j..]
    else if j == |b| then a[i..]
    else if a[i] <= b[j] then [a[i]] + MezclaDesde(a, b, i + 1, j)
    else [b[j]] + MezclaDesde(a, b, i, j + 1)
  }

  /** The whole merge of `a` and `b`. */
  function MezclaDe(a: seq<int>, b: seq<int>): seq<int>
  {
    MezclaDesde(a, b, 0, 0)
  }

  /** The merge holds what is left of both sequences. */
  lemma {:induction false} MezclaDesdeMultiset(a: seq<int>, b: seq<int>, i: nat, j: nat)
    requires i <= |a| && j <= |b|
    ensures multiset(MezclaDesde(a, b, i, j)) == multiset(a[i..]) + multiset(b[j..])
    decreases |a| - i + |b| - j
  {
    if i == |a| {
      assert a[i..] == [];
    } else if j == |b| {
      assert b[j..] == [];
    } else if a[i] <= b[j] {
      MezclaDesdeMultiset(a, b, i + 1, j);
      PasoMultisetIzquierdo(a, b, i, j);
    } else {
      MezclaDesdeMultiset(a, b, i, j + 1);
      PasoMultisetDerecho(a, b, i, j);
    }
  }

  /** The step of the merge that takes the head of `a`. */
  lemma PasoMultisetIzquierdo(a: seq<int>, b: seq<int>, i: nat, j: nat)
    requires i < |a| && j < |b| && a[i] <= b[j]
    requires multiset(MezclaDesde(a, b, i + 1, j)) == multiset(a[i + 1..]) + multiset(b[j..])
    ensures multiset(MezclaDesde(a, b, i, j)) == multiset(a[i..]) + multiset(b[j..])
  {
    assert MezclaDesde(a, b, i, j) == [a[i]] + MezclaDesde(a, b, i + 1, j);
    assert a[i..] == [a[i]] + a[i + 1..];
  }

  lemma Conmuta(x: multiset<int>, a: multiset<int>, b: multiset<int>)
    ensures x + (a + b) == a + (x + b)
  {
  }

  /** The step of the merge that takes the head of `b`. */
  lemma PasoMultisetDerecho(a: seq<int>, b: seq<int>, i: nat, j: nat)
    requires i < |a| && j < |b| && b[j] < a[i]
    requires multiset(MezclaDesde(a, b, i, j + 1)) == multiset(a[i..]) + multiset(b[j + 1..])
    ensures multiset(MezclaDesde(a, b, i, j)) == multiset(a[i..]) + multiset(b[j..])
  {
    var m := MezclaDesde(a, b, i, j + 1);
    var A, B := multiset(a[i..]), multiset(b[j + 1..]);
    calc {
      multiset(MezclaDesde(a, b, i, j));
      multiset([b[j]] + m);
      multiset([b[j]]) + (A + B);
      { Conmuta(multiset([b[j]]), A, B); }
      A + (multiset([b[j]]) + B);
      { assert b[j..] == [b[j]] + b[j + 1..]; }
      A + multiset(b[j..]);
    }
  }

  /** Merging two sorted sequences from positions i and j gives a sorted
      sequence, headed by the smaller of a[i] and b[j]. */
  lemma {:induction false} MezclaDesdeOrdenada(a: seq<int>, b: seq<int>, i: nat, j: nat)
    requires i <= |a| && j <= |b| && Ordenada(a) && Ordenada(b)
    ensures Ordenada(MezclaDesde(a, b, i, j))
    ensures i < |a| && j < |b| ==> MezclaDesde(a, b, i, j)[0] == if a[i] <= b[j] then a[i] else b[j]
    decreases |a| - i + |b| - j
  {
    if i == |a| {
      OrdenadaSufijo(b, j);
    } else if j == |b| {
      OrdenadaSufijo(a, i);
    } else if a[i] <= b[j] {
      MezclaDesdeOrdenada(a, b, i + 1, j);
      OrdenadaAlFrente(a[i], MezclaDesde(a, b, i + 1, j));
    } else {
      MezclaDesdeOrdenada(a, b, i, j + 1);
      OrdenadaAlFrente(b[j], MezclaDesde(a, b, i, j + 1));
    }
  }

  /** Merge sort as `mergeSort` does it: halves of `|s| / 2` and the
      rest. */
  function OrdenadaPorMezcla(s: seq<int>): seq<int>
    decreases |s|
  {
    if |s| < 2 then s
    else
      var k := |s| / 2;
      MezclaDe(OrdenadaPorMezcla(s[..k]), OrdenadaPorMezcla(s[k..]))
  }

  /** Appending one element, then a sequence, is appending both. */
  lemma Asocia(c: seq<int>, x: int, m: seq<int>)
    ensures c + ([x] + m) == (c + [x]) + m
  {
  }

  /** Every suffix of a sorted sequence is sorted. */
  lemma OrdenadaSufijo(s: seq<int>, i: nat)
    requires Ordenada(s) && i <= |s|
    ensures Ordenada(s[i..])
  {
    var r := s[i..];
    forall x, y | 0 <= x < y < |r| ensures r[x] <= r[y] {
      assert r[x] == s[i + x] && r[y] == s[i + y];
    }
  }

  /** A sorted sequence stays sorted with an element in front that is
      not above its first one. */
  lemma OrdenadaAlFrente(x: int, s: seq<int>)
    requires Ordenada(s) && (s != [] ==> x <= s[0])
    ensures Ordenada([x] + s)
  {
    var r := [x] + s;
    forall i, j | 0 <= i < j < |r| ensures r[i] <= r[j] {
      if i > 0 {
        assert r[i] == s[i - 1] && r[j] == s[j - 1];
      } else {
        assert r[j] == s[j - 1] && s[0] <= s[j - 1];
      }
    }
  }

  /** Merge sort sorts. */
  lemma {:induction false} OrdenadaPorMezclaOrdena(s: seq<int>)
    ensures Ordenada(OrdenadaPorMezcla(s))
    decreases |s|
  {
    if |s| >= 2 {
      var k := |s| / 2;
      OrdenadaPorMezclaOrdena(s[..k]);
      OrdenadaPorMezclaOrdena(s[k..]);
      MezclaDesdeOrdenada(OrdenadaPorMezcla(s[..k]), OrdenadaPorMezcla(s[k..]), 0, 0);
    }
  }

  /** Merge sort keeps every element, as often as it occurs. */
  lemma {:induction false} OrdenadaPorMezclaPermuta(s: seq<int>)
    ensures multiset(OrdenadaPorMezcla(s)) == multiset(s)
    decreases |s|
  {
    if |s| >= 2 {
      var k := |s| / 2;
      OrdenadaPorMezclaPermuta(s[..k]);
      OrdenadaPorMezclaPermuta(s[k..]);
      var a, b := OrdenadaPorMezcla(s[..k]), OrdenadaPorMezcla(s[k..]);
      MezclaDesdeMultiset(a, b, 0, 0);
      assert a[0..] == a && b[0..] == b;
      assert s == s[..k] + s[k..];
    }
  }

  /** In a sorted sequence every element lies between the first and the
      last. */
  lemma EntreExtremos(s: seq<int>, x: int)
    requires Ordenada(s) && x in s
    ensures s[0] <= x <= s[|s| - 1]
  {
  }

  /** Node j of the chain `ns` holds cs[j] and points to its neighbours
      in `ns`, or to null at either end. */
  ghost predicate Eslabon(ns: seq<Nodo>, cs: seq<int>, j: int)
    reads ns
  {
    && 0 <= j < |ns| == |cs|
    && ns[j].elemento == cs[j]
    && ns[j].siguiente == (if j + 1 < |ns| then ns[j + 1] else null)
    && ns[j].anterior == (if j > 0 then ns[j - 1] else null)
  }

  /** `ns` is a doubly linked chain of distinct nodes holding `cs`. */
  ghost predicate Cadena(ns: seq<Nodo>, cs: seq<int>)
    reads ns
  {
    && |ns| == |cs|
    && (forall j :: 0 <= j < |ns| ==> Eslabon(ns, cs, j))
    && SinRepetidos(ns)
  }

  class Nodo {
    var elemento: int
    var anterior: Nodo?
    var siguiente: Nodo?

    constructor(e: int)
      ensures elemento == e && anterior == null && siguiente == null
    {
      elemento := e;
      anterior := null;
      siguiente := null;
    }
  }

  class Lista {
    var cabeza: Nodo?
    var rabo: Nodo?
    var longitud: int

    /** The elements from head to tail. */
    ghost var contenido: seq<int>
    /** The nodes from head to tail. */
    ghost var nodos: seq<Nodo>
    ghost var Repr: set<Nodo>

    /** The chain runs from `cabeza` to `rabo` through `nodos`, forwards
        by `siguiente` and backwards by `anterior`, with no node twice;
        node i holds element i, and `longitud` counts the nodes. */
    ghost predicate Valido()
      reads this, Repr
    {
      && Repr == (set x | x in nodos)
      && |nodos| == |contenido| == longitud
      && (nodos == [] ==> cabeza == null && rabo == null)
      && (nodos != [] ==> cabeza == nodos[0] && rabo == nodos[|nodos| - 1])
      && (forall i :: 0 <= i < |nodos| ==> Enlazado(i))
      && SinRepetidos(nodos)
    }

    /** Node i holds element i and points forwards to node i + 1 and
        backwards to node i - 1, or to null at either end. */
    ghost predicate Enlazado(i: int)
      reads this, Repr
    {
      && 0 <= i < |nodos| == |contenido|
      && nodos[i] in Repr
      && nodos[i].elemento == contenido[i]
      && nodos[i].siguiente == (if i + 1 < |nodos| then nodos[i + 1] else null)
      && nodos[i].anterior == (if i > 0 then nodos[i - 1] else null)
    }

    /** An empty list. */
    constructor()
      ensures Valido() && fresh(Repr) && contenido == []
    {
      cabeza, rabo, longitud := null, null, 0;
      contenido, nodos, Repr := [], [], {};
    }

    /** The private `afaltadeconstructor`: the list takes the chain `ns`,
        from `c` to `r`, with `lon` elements. */
    method Afaltadeconstructor(c: Nodo?, r: Nodo?, lon: int, ghost ns: seq<Nodo>, ghost cs: seq<int>)
      requires Cadena(ns, cs) && lon == |ns|
      requires c == (if ns == [] then null else ns[0]) && r == (if ns == [] then null else ns[|ns| - 1])
      modifies this
      ensures Valido() && nodos == ns && contenido == cs && Repr == set x | x in ns
    {
      cabeza, rabo, longitud := c, r, lon;
      Adopta(ns, cs);
    }

    /** The list's ghost state becomes the chain `ns`, which already runs
        from `cabeza` to `rabo` and has `longitud` nodes. */
    ghost method Adopta(ns: seq<Nodo>, cs: seq<int>)
      requires Cadena(ns, cs) && longitud == |ns|
      requires cabeza == (if ns == [] then null else ns[0]) && rabo == (if ns == [] then null else ns[|ns| - 1])
      modifies this
      ensures Valido() && nodos == ns && contenido == cs && Repr == set x | x in ns
      ensures cabeza == old(cabeza) && rabo == old(rabo) && longitud == old(longitud)
    {
      nodos, contenido, Repr := ns, cs, set x | x in ns;
      forall j | 0 <= j < |ns| ensures Enlazado(j) {
        assert old(Eslabon(ns, cs, j));
        assert Eslabon(ns, cs, j);
      }
    }

    /** `getLongitud()` and `getElementos()`. */
    function GetLongitud(): (n: int)
      reads this, Repr
      requires Valido()
      ensures n == |contenido|
    {
      longitud
    }

    /** `esVacia()`: no head node. */
    function EsVacia(): (b: bool)
      reads this, Repr
      requires Valido()
      ensures b <==> contenido == []
    {
      cabeza == null
    }

    /** `agregaFinal(e)` (and `agrega(e)`): null throws
        IllegalArgumentException; otherwise a new node is linked after the
        tail, or becomes head and tail of an empty list. */
    method AgregaFinal(e: Option<int>) returns (r: Outcome)
      requires Valido()
      modifies this, Repr
      ensures Valido() && fresh(Repr - old(Repr))
      ensures e.None? ==> r == Fail(ArgumentoIlegal) && contenido == old(contenido) && Repr == old(Repr)
      ensures e.Some? ==> r == Pass && contenido == old(contenido) + [e.value]
    {
      if e.None? {
        return Fail(ArgumentoIlegal);
      }
      var nodo := new Nodo(e.value);
      ghost var viejos, vc, n := nodos, contenido, |nodos|;
      CadenaDeLista(this);
      assert n > 0 ==> Eslabon(viejos, vc, n - 1);
      ghost var nuevos, nc := viejos + [nodo], vc + [e.value];
      label Antes:
      longitud := longitud + 1;
      if rabo == null {
        cabeza, rabo := nodo, nodo;
      } else {
        nodo.anterior := rabo;
        rabo.siguiente := nodo;
        rabo := nodo;
      }
      forall i | 0 <= i < |nuevos| ensures Eslabon(nuevos, nc, i) {
        if i < n {
          assert old@Antes(Eslabon(viejos, vc, i));
          assert nuevos[i] == viejos[i] != nodo;
          assert i + 1 < n ==> viejos[i] != viejos[n - 1];
        }
      }
      assert (set x | x in nuevos) == (set x | x in viejos) + {nodo};
      Adopta(nuevos, nc);
      return Pass;
    }

    /** `agregaInicio(e)`: null throws IllegalArgumentException; otherwise a
        new node is linked before the head. */
    method AgregaInicio(e: Option<int>) returns (r: Outcome)
      requires Valido()
      modifies this, Repr
      ensures Valido() && fresh(Repr - old(Repr))
      ensures e.None? ==> r == Fail(ArgumentoIlegal) && contenido == old(contenido) && Repr == old(Repr)
      ensures e.Some? ==> r == Pass && contenido == [e.value] + old(contenido)
    {
      if e.None? {
        return Fail(ArgumentoIlegal);
      }
      var nodo := new Nodo(e.value);
      ghost var viejos, vc, n := nodos, contenido, |nodos|;
      CadenaDeLista(this);
      assert n > 0 ==> Eslabon(viejos, vc, 0);
      ghost var nuevos, nc := [nodo] + viejos, [e.value] + vc;
      SinRepetidosInsertado(viejos, 0, nodo);
      assert nuevos == viejos[..0] + [nodo] + viejos[0..];
      label Antes:
      longitud := longitud + 1;
      if cabeza == null {
        cabeza, rabo := nodo, nodo;
      } else {
        cabeza.anterior := nodo;
        nodo.siguiente := cabeza;
        cabeza := nodo;
      }
      forall i | 0 <= i < |nuevos| ensures Eslabon(nuevos, nc, i) {
        if i > 0 {
          assert old@Antes(Eslabon(viejos, vc, i - 1));
          assert nuevos[i] == viejos[i - 1] != nodo;
          assert i > 1 ==> viejos[i - 1] != viejos[0];
        }
      }
      assert (set x | x in nuevos) == (set x | x in viejos) + {nodo};
      Adopta(nuevos, nc);
      return Pass;
    }

    /** `eliminaPrimero()`: NoSuchElementException on an empty list;
        otherwise the head is unlinked and its element returned. */
    method EliminaPrimero() returns (r: Result<int>)
      requires Valido()
      modifies this, Repr
      ensures Valido() && Repr <= old(Repr)
      ensures old(contenido) == [] ==> r == Err(ElementoInexistente) && contenido == []
      ensures old(contenido) != [] ==> r == Ok(old(contenido)[0]) && contenido == old(contenido)[1..]
    {
      if cabeza == null {
        return Err(ElementoInexistente);
      }
      ghost var viejos, n := nodos, |nodos|;
      assert Enlazado(0);
      assert n > 1 ==> Enlazado(1);
      label Antes:
      longitud, nodos, contenido, Repr := longitud - 1, nodos[1..], contenido[1..], Repr - {cabeza};
      var primero := cabeza.elemento;
      cabeza := cabeza.siguiente;
      if cabeza == null {
        rabo := null;
      } else {
        cabeza.anterior := null;
      }
      forall i | 0 <= i < |nodos| ensures Enlazado(i) {
        assert old@Antes(Enlazado(i + 1));
        assert nodos[i] == viejos[i + 1];
        assert i > 0 ==> viejos[i + 1] != viejos[1];
      }
      return Ok(primero);
    }

    /** `eliminaUltimo()`: NoSuchElementException on an empty list;
        otherwise the tail is unlinked and its element returned. */
    method EliminaUltimo() returns (r: Result<int>)
      requires Valido()
      modifies this, Repr
      ensures Valido() && Repr <= old(Repr)
      ensures old(contenido) == [] ==> r == Err(ElementoInexistente) && contenido == []
      ensures old(contenido) != [] ==>
        r == Ok(old(contenido)[|old(contenido)| - 1]) && contenido == old(contenido)[..|old(contenido)| - 1]
    {
      if rabo == null {
        return Err(ElementoInexistente);
      }
      ghost var viejos, n := nodos, |nodos|;
      assert Enlazado(n - 1);
      assert n > 1 ==> Enlazado(n - 2);
      label Antes:
      longitud, nodos, contenido, Repr := longitud - 1, nodos[..n - 1], contenido[..n - 1], Repr - {rabo};
      var ultimo := rabo.elemento;
      rabo := rabo.anterior;
      if rabo == null {
        cabeza := null;
      } else {
        rabo.siguiente := null;
      }
      forall i | 0 <= i < |nodos| ensures Enlazado(i) {
        assert old@Antes(Enlazado(i));
        assert nodos[i] == viejos[i];
        assert i + 1 < n - 1 ==> viejos[i] != viejos[n - 2];
      }
      return Ok(ultimo);
    }

    /** `inserta(i, e)`: null throws IllegalArgumentException; a position
        not above 0 adds at the front, one not below the length at the end;
        otherwise the loop walks to node i and links the new node before
        it. */
    method Inserta(i: int, e: Option<int>) returns (r: Outcome)
      requires Valido()
      modifies this, Repr
      ensures Valido() && fresh(Repr - old(Repr))
      ensures e.None? ==> r == Fail(ArgumentoIlegal) && contenido == old(contenido)
      ensures e.Some? ==> r == Pass && contenido == InsertaEn(old(contenido), i, e.value)
    {
      if e.None? {
        return Fail(ArgumentoIlegal);
      }
      if i <= 0 {
        r := AgregaInicio(e);
        assert contenido == old(contenido)[..0] + [e.value] + old(contenido)[0..];
        return;
      }
      if i >= longitud {
        r := AgregaFinal(e);
        assert old(contenido)[..|old(contenido)|] == old(contenido);
        return;
      }
      var nodo := new Nodo(e.value);
      assert Valido() && nodo !in Repr;
      var n := cabeza;
      var k := i;
      while k > 0
        invariant 0 <= k <= i
        invariant n == nodos[i - k]
      {
        assert Enlazado(i - k);
        n := n.siguiente;
        k := k - 1;
      }
      EnlazaAntes(n, nodo, i);
      return Pass;
    }

    /** The linking step of `inserta`: `nodo` goes between node i - 1 and
        node i. */
    method EnlazaAntes(n: Nodo, nodo: Nodo, ghost i: nat)
      requires Valido() && 0 < i < |nodos| && n == nodos[i] && nodo !in Repr
      modifies this, Repr, nodo
      ensures Valido() && Repr == old(Repr) + {nodo}
      ensures contenido == old(contenido)[..i] + [old(nodo.elemento)] + old(contenido)[i..]
    {
      ghost var viejos, vc := nodos, contenido;
      CadenaDeLista(this);
      assert Eslabon(viejos, vc, i) && Eslabon(viejos, vc, i - 1);
      ghost var nuevos := viejos[..i] + [nodo] + viejos[i..];
      ghost var nc := vc[..i] + [nodo.elemento] + vc[i..];
      label Antes:
      longitud := longitud + 1;
      n.anterior.siguiente := nodo;
      nodo.anterior := n.anterior;
      nodo.siguiente := n;
      n.anterior := nodo;
      forall j | 0 <= j < |viejos| && j != i - 1 && j != i ensures Eslabon(viejos, vc, j) {
        assert old@Antes(Eslabon(viejos, vc, j));
        assert viejos[j] != viejos[i] && viejos[j] != viejos[i - 1];
      }
      CadenaInsertada(viejos, vc, nodo, i);
      assert nuevos[0] == viejos[0] && nuevos[|nuevos| - 1] == viejos[|viejos| - 1];
      assert (set x | x in nuevos) == (set x | x in viejos) + {nodo};
      Adopta(nuevos, nc);
    }

    /** `elimina(e)`: the loop looks for the first node holding `e` (a null
        `e` equals none); if there is one it is unlinked, as head, tail,
        both or neither; otherwise nothing changes. */
    method Elimina(e: Option<int>)
      requires Valido()
      modifies this, Repr
      ensures Valido() && Repr <= old(Repr)
      ensures contenido == if e.Some? then SinElemento(old(contenido), e.value) else old(contenido)
    {
      var n := cabeza;
      ghost var k := 0;
      while n != null && !(e.Some? && n.elemento == e.value)
        invariant 0 <= k <= |nodos|
        invariant n == if k < |nodos| then nodos[k] else null
        invariant e.Some? ==> e.value !in contenido[..k]
        decreases |nodos| - k
      {
        assert Enlazado(k);
        assert contenido[..k + 1] == contenido[..k] + [contenido[k]];
        n := n.siguiente;
        k := k + 1;
      }
      if n == null {
        assert contenido[..k] == contenido;
        return;
      }
      assert Enlazado(k);
      PosicionUnica(contenido, e.value, k);
      Desliga(n, k);
    }

    /** The unlinking step of `elimina`.  Unlinking the head (also when it
        is the tail) or the tail sets the same links as `eliminaPrimero` and
        `eliminaUltimo`; a node in the middle is bypassed by its
        neighbours. */
    method Desliga(n: Nodo, ghost k: nat)
      requires Valido() && k < |nodos| && n == nodos[k]
      modifies this, Repr
      ensures Valido() && Repr <= old(Repr)
      ensures contenido == SinPosicion(old(contenido), k)
    {
      ghost var m := |nodos|;
      assert n == cabeza <==> k == 0;
      assert n == rabo <==> k == m - 1;
      if n == cabeza {
        var _ := EliminaPrimero();
        assert SinPosicion(old(contenido), k) == old(contenido)[1..];
      } else if n == rabo {
        var _ := EliminaUltimo();
        assert SinPosicion(old(contenido), k) == old(contenido)[..m - 1];
      } else {
        DesligaMedio(n, k);
      }
    }

    /** Node k, which has a node on each side, is bypassed by them. */
    method DesligaMedio(n: Nodo, ghost k: nat)
      requires Valido() && 0 < k < |nodos| - 1 && n == nodos[k]
      modifies this, Repr
      ensures Valido() && Repr <= old(Repr)
      ensures contenido == SinPosicion(old(contenido), k)
    {
      ghost var viejos, vc := nodos, contenido;
      CadenaDeLista(this);
      assert Eslabon(viejos, vc, k) && Eslabon(viejos, vc, k - 1) && Eslabon(viejos, vc, k + 1);
      ghost var nuevos, nc := SinPosicion(viejos, k), SinPosicion(vc, k);
      SinRepetidosSinPosicion(viejos, k);
      label Antes:
      longitud := longitud - 1;
      n.anterior.siguiente := n.siguiente;
      n.siguiente.anterior := n.anterior;
      forall j | 0 <= j < |nuevos| ensures Eslabon(nuevos, nc, j) {
        if j < k {
          assert old@Antes(Eslabon(viejos, vc, j));
          assert nuevos[j] == viejos[j] != viejos[k + 1];
        } else {
          assert old@Antes(Eslabon(viejos, vc, j + 1));
          assert nuevos[j] == viejos[j + 1] != viejos[k - 1];
        }
      }
      assert nuevos[0] == viejos[0] && nuevos[|nuevos| - 1] == viejos[|viejos| - 1];
      Adopta(nuevos, nc);
    }

    /** `contiene(e)`: the loop looks for a node holding `e`; a null `e`
        equals none. */
    method Contiene(e: Option<int>) returns (b: bool)
      requires Valido()
      ensures b <==> e.Some? && e.value in contenido
    {
      var n := cabeza;
      ghost var k := 0;
      while n != null
        invariant 0 <= k <= |nodos|
        invariant n == if k < |nodos| then nodos[k] else null
        invariant e.Some? ==> e.value !in contenido[..k]
        decreases |nodos| - k
      {
        assert Enlazado(k);
        if e.Some? && n.elemento == e.value {
          return true;
        }
        assert contenido[..k + 1] == contenido[..k] + [contenido[k]];
        n := n.siguiente;
        k := k + 1;
      }
      assert contenido[..k] == contenido;
      return false;
    }

    /** `get(i)`: ExcepcionIndiceInvalido outside `0 <= i < longitud`;
        otherwise the loop walks i links from the head. */
    method Get(i: int) returns (r: Result<int>)
      requires Valido()
      ensures 0 <= i < |contenido| ==> r == Ok(contenido[i])
      ensures !(0 <= i < |contenido|) ==> r == Err(IndiceInvalido)
    {
      if i < 0 || i >= longitud {
        return Err(IndiceInvalido);
      }
      var n := cabeza;
      var k := i;
      while k > 0
        invariant 0 <= k <= i
        invariant n == nodos[i - k]
      {
        assert Enlazado(i - k);
        n := n.siguiente;
        k := k - 1;
      }
      assert Enlazado(i);
      return Ok(n.elemento);
    }

    /** `indiceDe(e)`: the position of the first node holding `e`, counted
        by the loop, or -1. */
    method IndiceDe(e: Option<int>) returns (indice: int)
      requires Valido()
      ensures indice == if e.Some? then Posicion(contenido, e.value) else -1
    {
      indice := 0;
      var n := cabeza;
      while n != null
        invariant 0 <= indice <= |nodos|
        invariant n == if indice < |nodos| then nodos[indice] else null
        invariant e.Some? ==> e.value !in contenido[..indice]
        decreases |nodos| - indice
      {
        assert Enlazado(indice);
        if e.Some? && n.elemento == e.value {
          PosicionUnica(contenido, e.value, indice);
          return;
        }
        assert contenido[..indice + 1] == contenido[..indice] + [contenido[indice]];
        n := n.siguiente;
        indice := indice + 1;
      }
      assert contenido[..indice] == contenido;
      return -1;
    }

    /** `reversa()`: a new list, filled by walking from the tail to the
        head and adding each element at the end. */
    method Reversa() returns (r: Lista)
      requires Valido()
      ensures fresh(r) && fresh(r.Repr) && r.Valido()
      ensures r.contenido == Invertida(contenido)
    {
      r := new Lista();
      var n := rabo;
      ghost var k := |nodos|;
      while n != null
        invariant 0 <= k <= |nodos|
        invariant n == if k > 0 then nodos[k - 1] else null
        invariant fresh(r) && fresh(r.Repr) && r.Valido() && Valido()
        invariant r.contenido == Invertida(contenido[k..])
        decreases k
      {
        assert Enlazado(k - 1);
        assert contenido[k - 1..][1..] == contenido[k..];
        var _ := r.AgregaFinal(Some(n.elemento));
        n := n.anterior;
        k := k - 1;
      }
      r.longitud := longitud;
    }

    /** `copia()`: a new list, filled by walking from the head to the tail
        and adding each element at the end. */
    method Copia() returns (r: Lista)
      requires Valido()
      ensures fresh(r) && fresh(r.Repr) && r.Valido()
      ensures r.contenido == contenido
    {
      r := new Lista();
      var n := cabeza;
      ghost var k := 0;
      while n != null
        invariant 0 <= k <= |nodos|
        invariant n == if k < |nodos| then nodos[k] else null
        invariant fresh(r) && fresh(r.Repr) && r.Valido() && Valido()
        invariant r.contenido == contenido[..k]
        decreases |nodos| - k
      {
        assert Enlazado(k);
        assert contenido[..k + 1] == contenido[..k] + [contenido[k]];
        var _ := r.AgregaFinal(Some(n.elemento));
        n := n.siguiente;
        k := k + 1;
      }
      assert contenido[..k] == contenido;
      r.longitud := longitud;
    }

    /** `equals(objeto)`: false for null or a different length; otherwise
        an iterator of the other list is run side by side with a walk of
        this one, stopping at the first mismatch. */
    method Equals(otra: Lista?) returns (b: bool)
      requires Valido()
      requires otra != null ==> otra.Valido()
      ensures b <==> otra != null && otra.contenido == contenido
    {
      if otra == null {
        return false;
      }
      if otra.longitud != longitud {
        return false;
      }
      var it := new Iterador(otra);
      var n := cabeza;
      while it.HasNext()
        invariant it.Valido() && it.lista == otra && Valido()
        invariant 0 <= it.posicion <= |nodos|
        invariant n == if it.posicion < |nodos| then nodos[it.posicion] else null
        invariant otra.contenido[..it.posicion] == contenido[..it.posicion]
        decreases |nodos| - it.posicion
      {
        ghost var k := it.posicion;
        assert Enlazado(k);
        var x := it.Next();
        if x != Ok(n.elemento) {
          return false;
        }
        assert otra.contenido[..k + 1] == otra.contenido[..k] + [otra.contenido[k]];
        assert contenido[..k + 1] == contenido[..k] + [contenido[k]];
        n := n.siguiente;
      }
      assert otra.contenido[..it.posicion] == otra.contenido;
      assert contenido[..it.posicion] == contenido;
      return true;
    }

    /** `mergeSort(comparador)`: a sorted copy of the list, with the
        elements' natural order as the comparator. */
    method MergeSort() returns (r: Lista)
      requires Valido()
      ensures fresh(r) && fresh(r.Repr) && r.Valido()
      ensures r.contenido == OrdenadaPorMezcla(contenido)
    {
      var copia := Copia();
      r := MergeSortDe(copia);
    }

    /** `busquedaLineal(e, comparador)`: false on an empty list, a null `e`
        or a null comparator (`hayComparador` false), and when `e` lies
        below the head or above the tail; otherwise the loop looks for a
        node holding `e`. */
    method BusquedaLineal(e: Option<int>, hayComparador: bool) returns (b: bool)
      requires Valido()
      ensures b <==> && e.Some? && hayComparador && contenido != []
                     && contenido[0] <= e.value <= contenido[|contenido| - 1]
                     && e.value in contenido
      ensures Ordenada(contenido) ==> (b <==> e.Some? && hayComparador && e.value in contenido)
    {
      if Ordenada(contenido) && e.Some? && e.value in contenido {
        EntreExtremos(contenido, e.value);
      }
      if cabeza == null || e.None? || !hayComparador {
        return false;
      }
      assert Enlazado(0) && Enlazado(longitud - 1);
      if e.value < cabeza.elemento || rabo.elemento < e.value {
        return false;
      }
      var it := cabeza;
      ghost var k := 0;
      while it != null
        invariant 0 <= k <= |nodos|
        invariant it == if k < |nodos| then nodos[k] else null
        invariant e.value !in contenido[..k]
        decreases |nodos| - k
      {
        assert Enlazado(k);
        if it.elemento == e.value {
          return true;
        }
        assert contenido[..k + 1] == contenido[..k] + [contenido[k]];
        it := it.siguiente;
        k := k + 1;
      }
      assert contenido[..k] == contenido;
      return false;
    }

    /** `limpia()`: forget every node. */
    method Limpia()
      requires Valido()
      modifies this
      ensures Valido() && contenido == [] && Repr == {}
    {
      cabeza, rabo, longitud := null, null, 0;
      contenido, nodos, Repr := [], [], {};
    }

    /** `getPrimero()`: NoSuchElementException on an empty list. */
    function GetPrimero(): (r: Result<int>)
      reads this, Repr
      requires Valido()
      ensures contenido == [] <==> r.Err?
      ensures r.Err? ==> r.error == ElementoInexistente
      ensures r.Ok? ==> r.value == contenido[0]
    {
      if cabeza == null then Err(ElementoInexistente) else assert Enlazado(0); Ok(cabeza.elemento)
    }

    /** `getUltimo()`: NoSuchElementException on an empty list. */
    function GetUltimo(): (r: Result<int>)
      reads this, Repr
      requires Valido()
      ensures contenido == [] <==> r.Err?
      ensures r.Err? ==> r.error == ElementoInexistente
      ensures r.Ok? ==> r.value == contenido[|contenido| - 1]
    {
      if rabo == null then Err(ElementoInexistente) else assert Enlazado(longitud - 1); Ok(rabo.elemento)
    }
  }

  /** The iterator of a list: the nodes before and after its position. */
  class Iterador {
    const lista: Lista
    var anterior: Nodo?
    var siguiente: Nodo?
    /** The index of `siguiente` in the list. */
    ghost var posicion: int

    ghost predicate Valido()
      reads this, lista, lista.Repr
    {
      && lista.Valido()
      && 0 <= posicion <= |lista.nodos|
      && siguiente == (if posicion < |lista.nodos| then lista.nodos[posicion] else null)
      && anterior == (if posicion > 0 then lista.nodos[posicion - 1] else null)
    }

    /** A new iterator stands before the head. */
    constructor(l: Lista)
      requires l.Valido()
      ensures Valido() && lista == l && posicion == 0
    {
      lista := l;
      anterior := null;
      siguiente := l.cabeza;
      posicion := 0;
    }

    /** `hasNext()`. */
    function HasNext(): (b: bool)
      reads this, lista, lista.Repr
      requires Valido()
      ensures b <==> posicion < |lista.contenido|
    {
      siguiente != null
    }

    /** `next()`: NoSuchElementException past the tail; otherwise steps
        over the next node and returns its element. */
    method Next() returns (r: Result<int>)
      requires Valido()
      modifies this
      ensures Valido()
      ensures old(posicion) < |lista.contenido| ==>
        posicion == old(posicion) + 1 && r == Ok(lista.contenido[old(posicion)])
      ensures old(posicion) == |lista.contenido| ==>
        posicion == old(posicion) && r == Err(ElementoInexistente)
    {
      if siguiente == null {
        return Err(ElementoInexistente);
      }
      assert lista.Enlazado(posicion);
      anterior := siguiente;
      siguiente := anterior.siguiente;
      posicion := posicion + 1;
      return Ok(anterior.elemento);
    }

    /** `hasPrevious()`. */
    function HasPrevious(): (b: bool)
      reads this, lista, lista.Repr
      requires Valido()
      ensures b <==> posicion > 0
    {
      anterior != null
    }

    /** `previous()`: NoSuchElementException before the head; otherwise
        steps back over the previous node and returns its element. */
    method Previous() returns (r: Result<int>)
      requires Valido()
      modifies this
      ensures Valido()
      ensures old(posicion) > 0 ==>
        posicion == old(posicion) - 1 && r == Ok(lista.contenido[posicion])
      ensures old(posicion) == 0 ==> posicion == 0 && r == Err(ElementoInexistente)
    {
      if anterior == null {
        return Err(ElementoInexistente);
      }
      assert lista.Enlazado(posicion - 1);
      siguiente := anterior;
      anterior := siguiente.anterior;
      posicion := posicion - 1;
      return Ok(siguiente.elemento);
    }

    /** `start()`: back before the head. */
    method Start()
      requires Valido()
      modifies this
      ensures Valido() && posicion == 0
    {
      anterior := null;
      siguiente := lista.cabeza;
      posicion := 0;
    }

    /** `end()`: past the tail. */
    method End()
      requires Valido()
      modifies this
      ensures Valido() && posicion == |lista.contenido|
    {
      siguiente := null;
      anterior := lista.rabo;
      posicion := |lista.nodos|;
    }
  }

  /** The private `mergeSort(comparador, lista)`: a list of fewer than two
      elements is its own result; otherwise the chain is cut after its
      first half, each half is sorted and the two are merged.  The cut
      reuses the nodes of `lista`, which is left broken. */
  method MergeSortDe(lista: Lista) returns (r: Lista)
    requires lista.Valido()
    modifies lista, lista.Repr
    ensures r.Valido() && r.contenido == OrdenadaPorMezcla(old(lista.contenido))
    ensures r == lista || fresh(r)
    ensures fresh(r.Repr - old(lista.Repr))
    decreases |lista.contenido|, 1
  {
    var lon := lista.GetLongitud();
    if lon < 2 {
      return lista;
    }
    var k := if lon % 2 == 1 then (lon - 1) / 2 else lon / 2;
    ghost var s := lista.contenido;
    var l1, l2 := Parte(lista, k);
    assert k == |s| / 2;
    r := OrdenaYMezcla(l1, l2);
  }

  /** The last line of the private `mergeSort`: both halves are sorted,
      the first one first, and the results are merged. */
  method OrdenaYMezcla(l1: Lista, l2: Lista) returns (r: Lista)
    requires l1.Valido() && l2.Valido() && l1 != l2 && l1.Repr !! l2.Repr
    requires l1.contenido != [] && l2.contenido != []
    modifies l1, l1.Repr, l2, l2.Repr
    ensures r.Valido() && fresh(r) && fresh(r.Repr)
    ensures r.contenido == MezclaDe(OrdenadaPorMezcla(old(l1.contenido)), OrdenadaPorMezcla(old(l2.contenido)))
    decreases |l1.contenido| + |l2.contenido|, 0
  {
    ghost var repr2 := l2.Repr;
    label Partida:
    var r1 := MergeSortDe(l1);
    assert unchanged@Partida(l2, repr2);
    ghost var repr1 := r1.Repr;
    assert r1 != l2 && repr1 !! l2.Repr;
    label Ordenada1:
    var r2 := MergeSortDe(l2);
    assert unchanged@Ordenada1(r1, repr1);
    r := Mezcla(r1, r2);
  }

  /** The cut of `mergeSort`: the loop walks k links from the head, the
      link between node k - 1 and node k is broken, and the two pieces
      become two new lists. */
  method Parte(lista: Lista, k: int) returns (l1: Lista, l2: Lista)
    requires lista.Valido() && 0 < k < |lista.contenido|
    modifies lista.Repr
    ensures fresh(l1) && fresh(l2) && l1 != l2 && l1.Valido() && l2.Valido()
    ensures l1.contenido == old(lista.contenido)[..k] && l2.contenido == old(lista.contenido)[k..]
    ensures l1.Repr <= old(lista.Repr) && l2.Repr <= old(lista.Repr) && l1.Repr !! l2.Repr
  {
    l1 := new Lista();
    l2 := new Lista();
    var lon := lista.longitud;
    var n := lista.cabeza;
    var i := 0;
    while i < k
      invariant 0 <= i <= k && n == lista.nodos[i]
    {
      assert lista.Enlazado(i);
      n := n.siguiente;
      i := i + 1;
    }
    ghost var ns, cs := lista.nodos, lista.contenido;
    CadenaDeLista(lista);
    var prev := Corta(n, ns, cs, k);
    PartesSinRepetidos(ns, k);
    l1.Afaltadeconstructor(lista.cabeza, prev, k, ns[..k], cs[..k]);
    l2.Afaltadeconstructor(n, lista.rabo, lon - k, ns[k..], cs[k..]);
  }

  /** The chain after `inserta` links `nodo` between node i - 1 and
      node i: every other node keeps its links, node i - 1 now points
      forwards to `nodo` and node i backwards to it. */
  lemma CadenaInsertada(ns: seq<Nodo>, cs: seq<int>, nodo: Nodo, i: nat)
    requires 0 < i < |ns| == |cs| && SinRepetidos(ns) && nodo !in ns
    requires forall j :: 0 <= j < |ns| && j != i - 1 && j != i ==> Eslabon(ns, cs, j)
    requires ns[i - 1].elemento == cs[i - 1] && ns[i - 1].siguiente == nodo
    requires ns[i - 1].anterior == (if i > 1 then ns[i - 2] else null)
    requires ns[i].elemento == cs[i] && ns[i].anterior == nodo
    requires ns[i].siguiente == (if i + 1 < |ns| then ns[i + 1] else null)
    requires nodo.anterior == ns[i - 1] && nodo.siguiente == ns[i]
    ensures Cadena(ns[..i] + [nodo] + ns[i..], cs[..i] + [nodo.elemento] + cs[i..])
  {
    var nuevos := ns[..i] + [nodo] + ns[i..];
    var nc := cs[..i] + [nodo.elemento] + cs[i..];
    SinRepetidosInsertado(ns, i, nodo);
    forall j | 0 <= j < |nuevos| ensures Eslabon(nuevos, nc, j) {
      if j < i - 1 {
        assert Eslabon(ns, cs, j);
      } else if j > i + 1 {
        assert Eslabon(ns, cs, j - 1);
      }
    }
  }

  /** A well-formed list is its chain. */
  lemma CadenaDeLista(l: Lista)
    requires l.Valido()
    ensures Cadena(l.nodos, l.contenido)
  {
    forall j | 0 <= j < |l.nodos| ensures Eslabon(l.nodos, l.contenido, j) {
      assert l.Enlazado(j);
    }
  }

  /** The two writes of `mergeSort` that break the chain before node
      `n`, node k, leaving two chains; `prev` is node k - 1. */
  method Corta(n: Nodo, ghost ns: seq<Nodo>, ghost cs: seq<int>, ghost k: int) returns (prev: Nodo)
    requires Cadena(ns, cs) && 0 < k < |ns| && n == ns[k]
    modifies ns[k - 1], ns[k]
    ensures prev == ns[k - 1]
    ensures Cadena(ns[..k], cs[..k]) && Cadena(ns[k..], cs[k..])
  {
    assert Eslabon(ns, cs, k);
    prev := n.anterior;
    prev.siguiente := null;
    n.anterior := null;
    forall j | 0 <= j < k ensures Eslabon(ns[..k], cs[..k], j) {
      assert old(Eslabon(ns, cs, j));
      assert ns[j] != ns[k];
      assert j < k - 1 ==> ns[j] != ns[k - 1];
    }
    forall j | 0 <= j < |ns| - k ensures Eslabon(ns[k..], cs[k..], j) {
      assert old(Eslabon(ns, cs, j + k));
      assert ns[j + k] != ns[k - 1];
      assert j > 0 ==> ns[j + k] != ns[k];
    }
  }

  /** `mezcla`: a new list filled from the two heads, the smaller element
      first and the left one on ties; then what is left of either. */
  method Mezcla(l1: Lista, l2: Lista) returns (l: Lista)
    requires l1.Valido() && l2.Valido()
    ensures fresh(l) && fresh(l.Repr) && l.Valido()
    ensures l.contenido == MezclaDe(l1.contenido, l2.contenido)
  {
    l := new Lista();
    ghost var a, b := l1.contenido, l2.contenido;
    var n1, n2, i1, i2 := MezclaFrentes(l, l1, l2);
    if n1 != null {
      assert MezclaDesde(a, b, i1, i2) == a[i1..];
      AgregaResto(l, l1, n1, i1);
    } else {
      assert MezclaDesde(a, b, i1, i2) == b[i2..];
      AgregaResto(l, l2, n2, i2);
    }
  }

  /** The first loop of `mezcla`, while both lists have nodes left: it
      stops at node i1 of `l1` and node i2 of `l2`, one of them past the
      tail, having added what the merge puts before them. */
  method MezclaFrentes(l: Lista, l1: Lista, l2: Lista) returns (n1: Nodo?, n2: Nodo?, ghost i1: nat, ghost i2: nat)
    requires l.Valido() && l.contenido == [] && l1.Valido() && l2.Valido()
    requires l != l1 && l != l2 && l.Repr !! l1.Repr && l.Repr !! l2.Repr
    modifies l, l.Repr
    ensures l.Valido() && fresh(l.Repr - old(l.Repr))
    ensures i1 <= |l1.contenido| && i2 <= |l2.contenido|
    ensures i1 == |l1.contenido| || i2 == |l2.contenido|
    ensures n1 == (if i1 < |l1.contenido| then l1.nodos[i1] else null)
    ensures n2 == (if i2 < |l2.contenido| then l2.nodos[i2] else null)
    ensures MezclaDe(l1.contenido, l2.contenido) == l.contenido + MezclaDesde(l1.contenido, l2.contenido, i1, i2)
  {
    ghost var a, b := l1.contenido, l2.contenido;
    n1, n2 := l1.cabeza, l2.cabeza;
    i1, i2 := 0, 0;
    while n1 != null && n2 != null
      invariant 0 <= i1 <= |a| && 0 <= i2 <= |b|
      invariant n1 == if i1 < |a| then l1.nodos[i1] else null
      invariant n2 == if i2 < |b| then l2.nodos[i2] else null
      invariant l.Valido() && fresh(l.Repr - old(l.Repr))
      invariant unchanged(l1, l1.Repr) && unchanged(l2, l2.Repr)
      invariant MezclaDe(a, b) == l.contenido + MezclaDesde(a, b, i1, i2)
      decreases |a| - i1 + |b| - i2
    {
      assert old(l1.Enlazado(i1)) && old(l2.Enlazado(i2));
      n1, n2, i1, i2 := PasoMezcla(l, l1, l2, n1, n2, i1, i2);
    }
  }

  /** One turn of the first loop of `mezcla`: the smaller front element,
      the one of `l1` on ties, goes to the end of `l` and its list moves
      on by one node. */
  method PasoMezcla(l: Lista, l1: Lista, l2: Lista, n1: Nodo, n2: Nodo, ghost i1: nat, ghost i2: nat)
    returns (m1: Nodo?, m2: Nodo?, ghost j1: nat, ghost j2: nat)
    requires l.Valido() && l1.Valido() && l2.Valido()
    requires l.Repr !! l1.Repr && l.Repr !! l2.Repr
    requires i1 < |l1.contenido| && i2 < |l2.contenido| && n1 == l1.nodos[i1] && n2 == l2.nodos[i2]
    requires MezclaDe(l1.contenido, l2.contenido) == l.contenido + MezclaDesde(l1.contenido, l2.contenido, i1, i2)
    modifies l, l.Repr
    ensures l.Valido() && fresh(l.Repr - old(l.Repr))
    ensures (j1, j2) == if l1.contenido[i1] <= l2.contenido[i2] then (i1 + 1, i2) else (i1, i2 + 1)
    ensures m1 == (if j1 < |l1.contenido| then l1.nodos[j1] else null)
    ensures m2 == (if j2 < |l2.contenido| then l2.nodos[j2] else null)
    ensures MezclaDe(l1.contenido, l2.contenido) == l.contenido + MezclaDesde(l1.contenido, l2.contenido, j1, j2)
  {
    ghost var a, b := l1.contenido, l2.contenido;
    assert l != l1 && l != l2 by {
      assert n1 in l1.Repr && n2 in l2.Repr;
    }
    assert n1.elemento == a[i1] && n2.elemento == b[i2] by {
      assert l1.Enlazado(i1) && l2.Enlazado(i2);
    }
    MezclaAvanza(a, b, i1, i2, l.contenido);
    m1, m2, j1, j2 := n1, n2, i1, i2;
    ghost var ns1, ns2 := l1.nodos, l2.nodos;
    if n1.elemento <= n2.elemento {
      m1 := TomaNodo(l, l1, n1, i1);
      j1 := i1 + 1;
    } else {
      m2 := TomaNodo(l, l2, n2, i2);
      j2 := i2 + 1;
    }
    assert l1.contenido == a && l2.contenido == b && l1.nodos == ns1 && l2.nodos == ns2;
  }

  /** Node i of `fuente` goes to the end of `l`, and the walk moves on to
      node i + 1 of `fuente`, or to null after its tail. */
  method TomaNodo(l: Lista, fuente: Lista, n: Nodo, ghost i: nat) returns (m: Nodo?)
    requires l.Valido() && fuente.Valido() && l != fuente && l.Repr !! fuente.Repr
    requires i < |fuente.contenido| && n == fuente.nodos[i]
    modifies l, l.Repr
    ensures l.Valido() && fresh(l.Repr - old(l.Repr))
    ensures l.contenido == old(l.contenido) + [fuente.contenido[i]]
    ensures m == if i + 1 < |fuente.contenido| then fuente.nodos[i + 1] else null
  {
    assert fuente.Enlazado(i);
    m := AgregaNodo(l, n);
  }

  /** The first loop of `mezcla` moves the smaller head, the one of `a` on
      ties, from what is left to merge to what is merged. */
  lemma MezclaAvanza(a: seq<int>, b: seq<int>, i1: nat, i2: nat, c: seq<int>)
    requires i1 < |a| && i2 < |b| && MezclaDe(a, b) == c + MezclaDesde(a, b, i1, i2)
    ensures a[i1] <= b[i2] ==> MezclaDe(a, b) == (c + [a[i1]]) + MezclaDesde(a, b, i1 + 1, i2)
    ensures b[i2] < a[i1] ==> MezclaDe(a, b) == (c + [b[i2]]) + MezclaDesde(a, b, i1, i2 + 1)
  {
    if a[i1] <= b[i2] {
      Asocia(c, a[i1], MezclaDesde(a, b, i1 + 1, i2));
    } else {
      Asocia(c, b[i2], MezclaDesde(a, b, i1, i2 + 1));
    }
  }

  /** One step of the loops of `mezcla`: the element of node `n` is added
      at the end of `l` and the walk moves on to the node after `n`. */
  method AgregaNodo(l: Lista, n: Nodo) returns (siguiente: Nodo?)
    requires l.Valido() && n !in l.Repr
    modifies l, l.Repr
    ensures l.Valido() && fresh(l.Repr - old(l.Repr))
    ensures l.contenido == old(l.contenido) + [n.elemento]
    ensures siguiente == n.siguiente
  {
    var _ := l.AgregaFinal(Some(n.elemento));
    siguiente := n.siguiente;
  }

  /** Each of the last two loops of `mezcla`: the elements of `fuente`
      from node `n`, node i, to the tail are added at the end of `l`.
      `fuente` is left as it was. */
  method AgregaResto(l: Lista, fuente: Lista, n: Nodo?, ghost i: nat)
    requires l.Valido() && fuente.Valido() && l != fuente && l.Repr !! fuente.Repr
    requires i <= |fuente.contenido| && n == if i < |fuente.contenido| then fuente.nodos[i] else null
    modifies l, l.Repr
    ensures l.Valido() && fresh(l.Repr - old(l.Repr))
    ensures l.contenido == old(l.contenido) + fuente.contenido[i..]
  {
    ghost var f := fuente.contenido;
    var m := n;
    ghost var j := i;
    while m != null
      invariant i <= j <= |f| && m == if j < |f| then fuente.nodos[j] else null
      invariant l.Valido() && fresh(l.Repr - old(l.Repr))
      invariant unchanged(fuente, fuente.Repr)
      invariant l.contenido == old(l.contenido) + f[i..j]
      decreases |f| - j
    {
      m := TomaNodo(l, fuente, m, j);
      assert f[i..j + 1] == f[i..j] + [f[j]];
      j := j + 1;
    }
  }
}
