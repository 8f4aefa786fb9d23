/** Types shared by every structure of the model: optional values (Java's
    nullable references), the exceptions the structures throw, and the
    three colours used by red-black trees and graph traversals. */
module Comun {

  /** `None` stands for a Java `null` argument or result. */
  datatype Option<+T> = None | Some(value: T)

  /** The exceptions thrown by the structures. */
  datatype Excepcion =
    | ArgumentoIlegal        // IllegalArgumentException
    | ElementoInexistente    // NoSuchElementException
    | ConversionInvalida     // ClassCastException
    | OperacionNoSoportada   // UnsupportedOperationException
    | IndiceInvalido         // ExcepcionIndiceInvalido
    | ApuntadorNulo          // NullPointerException

  /** Either the value an operation returns or the exception it throws. */
  datatype Result<+T> = Ok(value: T) | Err(error: Excepcion)

  /** An operation that returns nothing, or throws. */
  datatype Outcome = Pass | Fail(error: Excepcion)

  /** The colours of the `Color` enumeration. */
  datatype Color = Rojo | Negro | Ninguno

  /** The sequence is non-decreasing. */
  ghost predicate Ordenada(s: seq<int>)
  {
    forall i, j :: 0 <= i < j < |s| ==> s[i] <= s[j]
  }

  /** No element occurs twice. */
  ghost predicate SinRepetidos<T>(s: seq<T>)
  {
    forall i, j :: 0 <= i < j < |s| ==> s[i] != s[j]
  }

  /** Taking out a position keeps the elements distinct. */
  lemma SinRepetidosSinPosicion<T>(s: seq<T>, k: nat)
    requires SinRepetidos(s) && k < |s|
    ensures SinRepetidos(SinPosicion(s, k))
  {
    var r := SinPosicion(s, k);
    forall a, b | 0 <= a < b < |r| ensures r[a] != r[b] {
      assert r[a] == s[if a < k then a else a + 1];
      assert r[b] == s[if b < k then b else b + 1];
    }
  }

  /** Putting a new value at a position keeps the elements distinct. */
  lemma SinRepetidosInsertado<T>(s: seq<T>, k: nat, x: T)
    requires SinRepetidos(s) && k <= |s| && x !in s
    ensures SinRepetidos(s[..k] + [x] + s[k..])
  {
    var r := s[..k] + [x] + s[k..];
    forall a, b | 0 <= a < b < |r| ensures r[a] != r[b] {
      assert r[a] == if a < k then s[a] else if a == k then x else s[a - 1];
      assert r[b] == if b < k then s[b] else if b == k then x else s[b - 1];
    }
  }

  /** The two sides of a cut of a sequence without repetitions have no
      repetitions and no element in common. */
  lemma PartesSinRepetidos<T>(s: seq<T>, k: nat)
    requires SinRepetidos(s) && k <= |s|
    ensures SinRepetidos(s[..k]) && SinRepetidos(s[k..])
    ensures (set x | x in s[..k]) !! (set x | x in s[k..])
  {
    assert forall a, b :: 0 <= a < b < |s| - k ==> s[k..][a] == s[a + k] && s[k..][b] == s[b + k];
    forall x | x in s[..k] ensures x !in s[k..] {
      var a :| 0 <= a < k && s[a] == x;
      forall b | 0 <= b < |s| - k ensures s[k..][b] != x {
        assert s[k..][b] == s[b + k];
      }
    }
  }

  /** Regrouping a concatenation whose middle part is itself split in
      three. */
  lemma ReagrupaIzquierda<T>(x: seq<T>, a: seq<T>, s: seq<T>, d: seq<T>)
    ensures x + (a + s + d) == (x + a) + s + d
  {
  }

  lemma ReagrupaDerecha<T>(a: seq<T>, s: seq<T>, d: seq<T>, y: seq<T>)
    ensures (a + s + d) + y == a + s + (d + y)
  {
  }

  lemma ReagrupaCentro<T>(a: seq<T>, l: seq<T>, x: seq<T>, r: seq<T>, d: seq<T>)
    ensures a + (l + x + r) + d == (a + l) + x + (r + d)
    ensures a + (l + r) + d == (a + l) + (r + d)
  {
  }

  function Max(a: int, b: int): int
  {
    if a < b then b else a
  }

  /** Sequence `s` with position `i` taken out. */
  function SinPosicion<T>(s: seq<T>, i: nat): (r: seq<T>)
    requires i < |s|
    ensures |r| == |s| - 1
  {
    s[..i] + s[i+1..]
  }

  /** Taking out a position takes out one copy of its value. */
  lemma SinPosicionMultiset<T>(s: seq<T>, i: nat)
    requires i < |s|
    ensures multiset(SinPosicion(s, i)) == multiset(s) - multiset{s[i]}
  {
    assert s == s[..i] + [s[i]] + s[i+1..];
  }

  /** Taking out the position right after `a` in `a + [x] + b`. */
  lemma SinPosicionMedio<T>(s: seq<T>, a: seq<T>, x: T, b: seq<T>)
    requires s == a + [x] + b
    ensures |a| < |s| && s[|a|] == x
    ensures SinPosicion(s, |a|) == a + b
  {
    assert s[..|a|] == a;
    assert s[|a| + 1..] == b;
  }

  /** Taking out the middle element of a sequence built around it. */
  lemma SinPosicionCentro<T>(a: seq<T>, l: seq<T>, x: T, r: seq<T>, d: seq<T>)
    ensures |a| + |l| < |a + (l + [x] + r) + d|
    ensures (a + (l + [x] + r) + d)[|a| + |l|] == x
    ensures SinPosicion(a + (l + [x] + r) + d, |a| + |l|) == a + (l + r) + d
  {
    ReagrupaCentro(a, l, [x], r, d);
    SinPosicionMedio(a + (l + [x] + r) + d, a + l, x, r + d);
  }

  /** Taking out a position in the left part of `a + [x] + b`. */
  lemma SinPosicionIzquierda<T>(a: seq<T>, x: T, b: seq<T>, k: nat)
    requires k < |a|
    ensures SinPosicion(a, k) + [x] + b == SinPosicion(a + [x] + b, k)
  {
    assert (a + [x] + b)[..k] == a[..k];
    assert (a + [x] + b)[k+1..] == a[k+1..] + [x] + b;
  }

  /** Taking out a position in the right part of `a + [x] + b`. */
  lemma SinPosicionDerecha<T>(a: seq<T>, x: T, b: seq<T>, k: nat)
    requires k < |b|
    ensures a + [x] + SinPosicion(b, k) == SinPosicion(a + [x] + b, |a| + 1 + k)
  {
    assert (a + [x] + b)[..|a| + 1 + k] == a + [x] + b[..k];
    assert (a + [x] + b)[|a| + 1 + k + 1..] == b[k+1..];
  }

  lemma {:induction false} OrdenadaSinPosicion(s: seq<int>, i: nat)
    requires i < |s| && Ordenada(s)
    ensures Ordenada(SinPosicion(s, i))
  {
    var r := SinPosicion(s, i);
    forall a, b | 0 <= a < b < |r| ensures r[a] <= r[b] {
      var a' := if a < i then a else a + 1;
      var b' := if b < i then b else b + 1;
      assert r == s[..i] + s[i+1..];
      assert r[a] == s[a'] && r[b] == s[b'];
    }
  }
}
