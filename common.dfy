/**
 Vocabulary shared by both versions of the router: node identities, route
 costs with Python's `float('inf')` as an explicit constructor, and the
 Python exceptions the routing code can raise, as values.
 */
module Common {

  /** Identity of a router or host endpoint; only equality is relied upon. */
  type NodeId(==, !new)

  /** A route cost: a hop count, or the infinite cost `float('inf')`. */
  datatype Cost = Fin(hops: nat) | Inf {

    /** Python's `this < other` between numbers and `float('inf')`. */
    predicate Below(other: Cost) {
      match this
      case Inf => false
      case Fin(a) => other.Inf? || a < other.hops
    }

    /** Python's `this <= other`. */
    predicate AtMost(other: Cost) {
      this == other || Below(other)
    }

    /** Python's `1 + this`, where `1 + float('inf')` stays infinite. */
    function AddHop(): Cost {
      match this
      case Fin(k) => Fin(k + 1)
      case Inf => Inf
    }
  }

  datatype Option<T> = None | Some(value: T)

  /** The exceptions the routing code lets escape (or catches). */
  datatype PyError = KeyError | IndexError | ValueError

  datatype Result<T> = Ok(value: T) | Err(error: PyError)

  /** No element occurs twice. */
  predicate NoDup<T(==)>(s: seq<T>) {
    forall i, j :: 0 <= i < j < |s| ==> s[i] != s[j]
  }

  /** Dropping the last element keeps a sequence duplicate-free, and that element does not occur earlier. */
  lemma NoDupInit<T>(s: seq<T>)
    requires NoDup(s) && s != []
    ensures NoDup(s[..|s| - 1]) && s[|s| - 1] !in s[..|s| - 1]
  {
  }

  /** Python's `s.pop(s.index(x))`: removes the first element equal to `x`. */
  function RemoveFirst<T(==)>(s: seq<T>, x: T): (r: seq<T>)
    requires x in s
    ensures |r| == |s| - 1
  {
    if s[0] == x then s[1..] else [s[0]] + RemoveFirst(s[1..], x)
  }

  /** Python's `s.index(x)`: the position of the first element equal to `x`. */
  function FirstIndex<T(==)>(s: seq<T>, x: T): (k: nat)
    requires x in s
    ensures k < |s| && s[k] == x
    ensures forall j :: 0 <= j < k ==> s[j] != x
  {
    if s[0] == x then 0 else 1 + FirstIndex(s[1..], x)
  }

  /** With no equal element before position `k`, `RemoveFirst` drops position `k`. */
  lemma {:induction false} RemoveFirstAt<T>(s: seq<T>, k: nat)
    requires k < |s| && forall j :: 0 <= j < k ==> s[j] != s[k]
    ensures RemoveFirst(s, s[k]) == s[..k] + s[k + 1..]
  {
    if k > 0 {
      assert s[1..][k - 1] == s[k];
      RemoveFirstAt(s[1..], k - 1);
      assert s[1..][..k - 1] + s[1..][k..] == s[1..k] + s[k + 1..];
    }
  }
}
