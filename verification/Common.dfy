// Definitions that several of the models share.
module Common {
  datatype Option<+T> = None | Some(value: T)

  function Spaces(n: nat): (s: string)
    ensures |s| == n && forall i :: 0 <= i < n ==> s[i] == ' '
  {
    seq(n, _ => ' ')
  }

  // ---------- Facts about sequences ----------

  lemma Assoc<T>(a: seq<T>, b: seq<T>, c: seq<T>)
    ensures a + (b + c) == a + b + c
  {
  }

  lemma Cut<T>(a: seq<T>, b: seq<T>)
    ensures (a + b)[..|a|] == a && (a + b)[|a|..] == b
  {
  }

  // A non-empty sequence is its first element and the rest.
  lemma Uncons<T>(s: seq<T>)
    requires s != []
    ensures [s[0]] + s[1..] == s
  {
  }

  // Or its last element and what comes before.
  lemma Unsnoc<T>(s: seq<T>)
    requires s != []
    ensures s[..|s| - 1] + [s[|s| - 1]] == s
  {
  }

  // ---------- Facts about division ----------

  lemma Monotone(x: int, y: int, m: nat)
    requires x <= y
    ensures x * m <= y * m
  {
  }

  lemma QuotientUnique(p: nat, m: nat, b: nat)
    requires m > 0 && b * m <= p < b * m + m
    ensures p / m == b
  {
    var c := p / m;
    assert c * m <= p < c * m + m;
    if c < b {
      Monotone(c + 1, b, m);
    } else if c > b {
      Monotone(b + 1, c, m);
    }
  }

  // Dividing by a product is dividing by its factors in turn.
  lemma DivideTwice(p: nat, m: nat, q: nat)
    requires m > 0 && q > 0
    ensures m * q > 0 && p / (m * q) == p / m / q
  {
    var a, r := p / m, p % m;
    var b, t := a / q, a % q;
    assert p == m * a + r && a == q * b + t;
    assert m * a == b * (m * q) + m * t;
    Monotone(t, q - 1, m);
    assert (q - 1) * m == m * q - m;
    assert m * q > 0 by { Monotone(1, q, m); }
    QuotientUnique(p, m * q, b);
  }
}
